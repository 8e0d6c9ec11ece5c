/** The command transformer: the override rules applied to one source line
    before it is framed (feedrate scaling and forced bed and hotend
    setpoints), and the decision between returning the line untouched and
    returning its single-spaced rewrite. */
module Transform {
  import opened Text

  /** The override options. A negative value, the command line's default of
      -1, means that the option is not set. */
  datatype Overrides = Overrides(feedratePercent: int, bedTemp: int, hotendTemp: int)

  const NoOverrides := Overrides(-1, -1, -1)

  /** The one way a line can fail: an F value that is not a plain digit
      string, which is where the conversion to an integer throws. */
  datatype Error = BadFeedrate(token: string)

  datatype Result<T> = Ok(value: T) | Failed(error: Error)

  /** `toupper` in the C locale. */
  function Upper(c: char): char {
    if 'a' <= c <= 'z' then (c as int - 32) as char else c
  }

  /** F value `v` scaled by `p` percent, rounded to the nearest integer with
      halves rounded up. */
  function ScaledFeedrate(v: nat, p: nat): (r: nat)
    requires p > 0
    ensures 100 * r - 50 <= v * p < 100 * r + 50
  {
    (v * p + 50) / 100
  }

  /** The trimmed line begins with a bed-temperature mnemonic. */
  predicate IsBedCommand(line: string) {
    StartsWith(line, "M140") || StartsWith(line, "M190")
  }

  /** The trimmed line begins with a hotend-temperature mnemonic. */
  predicate IsHotendCommand(line: string) {
    StartsWith(line, "M104") || StartsWith(line, "M109")
  }

  /** The parameter letter of a token, upper-cased. */
  function Code(tok: string): char
    requires |tok| > 0
  {
    Upper(tok[0])
  }

  /** The rewrite of one token of the trimmed `line`: F values are parsed and,
      when a feedrate percentage is set, scaled; S values are forced to the
      bed temperature on a bed command, else to the hotend temperature on a
      hotend command; every other token is kept. */
  function RewriteToken(tok: string, line: string, ov: Overrides): (r: Result<string>)
    ensures r.Ok? && r.value != tok ==> |tok| >= 2 && (Code(tok) == 'F' || Code(tok) == 'S')
    ensures r.Failed? ==> |tok| >= 2 && Code(tok) == 'F'
    ensures IsWord(tok) && r.Ok? ==> IsWord(r.value)
  {
    if |tok| < 2 then Ok(tok)
    else if Code(tok) == 'F' then
      match ParseNat(tok[1..])
      case None => Failed(BadFeedrate(tok))
      case Some(v) =>
        if ov.feedratePercent > 0 then Ok("F" + NatToString(ScaledFeedrate(v, ov.feedratePercent)))
        else Ok(tok)
    else if Code(tok) == 'S' && ov.bedTemp >= 0 && IsBedCommand(line) then
      Ok("S" + NatToString(ov.bedTemp))
    else if Code(tok) == 'S' && ov.hotendTemp >= 0 && IsHotendCommand(line) then
      Ok("S" + NatToString(ov.hotendTemp))
    else Ok(tok)
  }

  /** The tokens rewritten left to right; the first token that fails stops
      the line. */
  function RewriteAll(ts: seq<string>, line: string, ov: Overrides): (r: Result<seq<string>>)
    ensures r.Ok? ==> (|r.value| == |ts| &&
      forall i :: 0 <= i < |ts| ==> RewriteToken(ts[i], line, ov) == Ok(r.value[i]))
    ensures r.Failed? <==> exists i :: 0 <= i < |ts| && RewriteToken(ts[i], line, ov).Failed?
  {
    if ts == [] then Ok([])
    else
      match RewriteAll(ts[..|ts| - 1], line, ov)
      case Failed(e) => Failed(e)
      case Ok(done) =>
        match RewriteToken(ts[|ts| - 1], line, ov)
        case Failed(e) => Failed(e)
        case Ok(t) => Ok(done + [t])
  }

  /** A line is passed through as it is when, trimmed, it is empty or a
      comment. */
  predicate IsBlankOrComment(line: string) {
    var t := Trimmed(line);
    t == [] || t[0] == ';'
  }

  /** The transformer on one source line. */
  function Modified(orig: string, ov: Overrides): Result<string> {
    var line := Trimmed(orig);
    if line == [] || line[0] == ';' then Ok(orig)
    else
      match RewriteAll(Tokens(line), line, ov)
      case Failed(e) => Failed(e)
      case Ok(out) =>
        var joined := SpaceJoin(out);
        if joined != " " + line then Ok(Trimmed(joined)) else Ok(orig)
  }

  /** The transformer as the source runs it: trim, then one loop over the
      tokens that appends each rewritten token after a space, then either the
      original line or the trimmed accumulation. */
  method ModifyLine(orig: string, ov: Overrides) returns (r: Result<string>)
    ensures r == Modified(orig, ov)
  {
    var line := Trim(orig);
    if line == [] || line[0] == ';' {
      return Ok(orig);
    }
    var tokens := Tokens(line);
    var result := "";
    ghost var done: seq<string> := [];
    var i := 0;
    while i < |tokens|
      invariant 0 <= i <= |tokens|
      invariant RewriteAll(tokens[..i], line, ov) == Ok(done)
      invariant result == SpaceJoin(done)
    {
      var t := RewriteToken(tokens[i], line, ov);
      assert tokens[..i + 1][..i] == tokens[..i];
      if t.Failed? {
        RewriteAllStops(tokens, line, ov, i + 1, t.error);
        assert tokens[..|tokens|] == tokens;
        return Failed(t.error);
      }
      SpaceJoinAppend(done, t.value);
      result := result + " " + t.value;
      done := done + [t.value];
      i := i + 1;
    }
    assert tokens[..i] == tokens;
    if result != " " + line {
      var trimmed := Trim(result);
      return Ok(trimmed);
    }
    return Ok(orig);
  }

  /** Once a prefix of the tokens has failed, every longer prefix fails with
      the same error. */
  lemma {:induction false} RewriteAllStops(ts: seq<string>, line: string, ov: Overrides, i: nat, e: Error)
    requires 0 < i <= |ts|
    requires RewriteAll(ts[..i], line, ov) == Failed(e)
    ensures RewriteAll(ts[..|ts|], line, ov) == Failed(e)
    decreases |ts| - i
  {
    if i < |ts| {
      assert ts[..i + 1][..i] == ts[..i];
      RewriteAllStops(ts, line, ov, i + 1, e);
    }
  }

  // ---------------------------------------------------------------------
  // What the transformer promises

  /** Blank and comment lines come back byte for byte. */
  lemma BlankOrCommentUnchanged(orig: string, ov: Overrides)
    requires IsBlankOrComment(orig)
    ensures Modified(orig, ov) == Ok(orig)
  {
  }

  /** A line fails exactly when one of its tokens is an F token whose value
      is not a plain digit string. */
  lemma ModifiedFails(orig: string, ov: Overrides)
    requires !IsBlankOrComment(orig)
    ensures var ts := Tokens(orig);
      Modified(orig, ov).Failed? <==>
        exists i :: 0 <= i < |ts| && |ts[i]| >= 2 && Code(ts[i]) == 'F' && ParseNat(ts[i][1..]).None?
  {
    TokensOfTrimmed(orig);
  }

  /** Any other line keeps its tokens, in the same order and number: each
      output token is the rewrite of the input token at the same place, and
      only F and S tokens of length two or more can differ. */
  lemma ModifiedKeepsTokens(orig: string, ov: Overrides)
    requires !IsBlankOrComment(orig)
    requires Modified(orig, ov).Ok?
    ensures var ts := Tokens(orig); var us := Tokens(Modified(orig, ov).value);
      && |us| == |ts|
      && (forall i :: 0 <= i < |ts| ==> RewriteToken(ts[i], Trimmed(orig), ov) == Ok(us[i]))
      && (forall i :: 0 <= i < |ts| && us[i] != ts[i] ==>
            |ts[i]| >= 2 && (Code(ts[i]) == 'F' || Code(ts[i]) == 'S'))
  {
    var line := Trimmed(orig);
    TokensOfTrimmed(orig);
    var out := RewriteAll(Tokens(line), line, ov).value;
    assert Tokens(Modified(orig, ov).value) == out by { OutputTokens(orig, ov); }
  }

  /** The output's tokens are the rewritten tokens, whichever form is
      returned. */
  lemma OutputTokens(orig: string, ov: Overrides)
    requires !IsBlankOrComment(orig)
    requires Modified(orig, ov).Ok?
    ensures var line := Trimmed(orig);
      Tokens(Modified(orig, ov).value) == RewriteAll(Tokens(line), line, ov).value
  {
    var line := Trimmed(orig);
    var out := RewriteAll(Tokens(line), line, ov).value;
    var joined := SpaceJoin(out);
    TokensOfSpaceJoin(out);
    if joined != " " + line {
      if out != [] {
        TrimmedSpaceJoin(out);
        assert joined[0] == ' ';
      }
    } else {
      TokensOfTrimmed(orig);
      assert (" " + line)[1..] == line;
    }
  }

  /** The original line is returned exactly when the single-spaced rewrite
      reproduces the trimmed line; otherwise the result is the rewritten
      tokens joined by single spaces. */
  lemma ModifiedOutputForm(orig: string, ov: Overrides)
    requires !IsBlankOrComment(orig)
    requires Modified(orig, ov).Ok?
    ensures var line := Trimmed(orig);
      var out := RewriteAll(Tokens(line), line, ov).value;
      var r := Modified(orig, ov).value;
      && (r == orig <==> SpaceJoin(out) == " " + line)
      && (r != orig ==> if out == [] then r == [] else " " + r == SpaceJoin(out))
  {
    var line := Trimmed(orig);
    var out := RewriteAll(Tokens(line), line, ov).value;
    var joined := SpaceJoin(out);
    var r := Modified(orig, ov).value;
    if joined != " " + line {
      if out != [] {
        TrimmedSpaceJoin(out);
        assert joined == " " + joined[1..];
        TrimIdempotent(joined);
      }
    }
  }

  /** With no override set and every F value a plain digit string, a single-spaced line
      comes back byte for byte. */
  lemma NoOverridesIdentity(orig: string, ov: Overrides)
    requires ov.feedratePercent <= 0 && ov.bedTemp < 0 && ov.hotendTemp < 0
    requires forall i :: 0 <= i < |Tokens(orig)| && |Tokens(orig)[i]| >= 2 && Code(Tokens(orig)[i]) == 'F' ==>
      ParseNat(Tokens(orig)[i][1..]).Some?
    requires SpaceJoin(Tokens(orig)) == " " + Trimmed(orig)
    ensures Modified(orig, ov) == Ok(orig)
  {
    var line := Trimmed(orig);
    if !IsBlankOrComment(orig) {
      TokensOfTrimmed(orig);
      var ts := Tokens(line);
      assert forall i :: 0 <= i < |ts| ==> RewriteToken(ts[i], line, ov) == Ok(ts[i]);
      var r := RewriteAll(ts, line, ov);
      assert r.Ok?;
      assert r.value == ts;
    }
  }

  /** The feedrate rule: an F token's value is always read, and must be a plain digit string; with
      a positive percentage the token becomes F followed by the scaled value
      rounded half up, otherwise it is kept. */
  lemma FeedrateRule(tok: string, line: string, ov: Overrides, v: nat)
    requires |tok| >= 2 && Code(tok) == 'F' && ParseNat(tok[1..]) == Some(v)
    ensures RewriteToken(tok, line, ov).Ok?
    ensures var r := RewriteToken(tok, line, ov).value;
      && (ov.feedratePercent <= 0 ==> r == tok)
      && (ov.feedratePercent > 0 ==>
            && |r| >= 2 && r[0] == 'F' && ParseNat(r[1..]).Some? && (r[1] == '0' ==> |r| == 2)
            && 100 * ParseNat(r[1..]).value - 50 <= v * ov.feedratePercent < 100 * ParseNat(r[1..]).value + 50)
  {
    if ov.feedratePercent > 0 {
      var n := ScaledFeedrate(v, ov.feedratePercent);
      ParsePrinted(n);
      assert ("F" + NatToString(n))[1..] == NatToString(n);
    }
  }

  /** The setpoint rule: an S token is forced to the bed temperature on a
      line that begins with M140 or M190 when that temperature is set, else
      to the hotend temperature on a line that begins with M104 or M109 when
      that one is set, and is kept otherwise. The two mnemonic families
      never overlap, so the order of the tests does not matter. */
  lemma SetpointRule(tok: string, line: string, ov: Overrides)
    requires |tok| >= 2 && Code(tok) == 'S'
    ensures RewriteToken(tok, line, ov).Ok?
    ensures IsBedCommand(line) ==> !IsHotendCommand(line)
    ensures var r := RewriteToken(tok, line, ov).value;
      && (ov.bedTemp >= 0 && IsBedCommand(line) ==>
            |r| >= 2 && r[0] == 'S' && ParseNat(r[1..]) == Some(ov.bedTemp) && (r[1] == '0' ==> |r| == 2))
      && (ov.hotendTemp >= 0 && IsHotendCommand(line) ==>
            |r| >= 2 && r[0] == 'S' && ParseNat(r[1..]) == Some(ov.hotendTemp) && (r[1] == '0' ==> |r| == 2))
      && (!(ov.bedTemp >= 0 && IsBedCommand(line)) && !(ov.hotendTemp >= 0 && IsHotendCommand(line)) ==>
            r == tok)
  {
    if IsBedCommand(line) {
      assert line[2] == '4' || line[2] == '9' by {
        assert line[..4] == "M140" || line[..4] == "M190";
      }
    }
    if IsHotendCommand(line) {
      assert line[2] == '0' by {
        assert line[..4] == "M104" || line[..4] == "M109";
      }
    }
    if ov.bedTemp >= 0 {
      ParsePrinted(ov.bedTemp);
      assert ("S" + NatToString(ov.bedTemp))[1..] == NatToString(ov.bedTemp);
    }
    if ov.hotendTemp >= 0 {
      ParsePrinted(ov.hotendTemp);
      assert ("S" + NatToString(ov.hotendTemp))[1..] == NatToString(ov.hotendTemp);
    }
  }

  /** At 100 percent an F token with a plain, canonical numeral keeps its
      value and its digits; only the letter is upper-cased. */
  lemma FullFeedrateKeepsValue(tok: string, line: string, ov: Overrides)
    requires ov.feedratePercent == 100
    requires |tok| >= 2 && Code(tok) == 'F' && AllDigits(tok[1..]) && (tok[1] == '0' ==> |tok| == 2)
    ensures RewriteToken(tok, line, ov) == Ok("F" + tok[1..])
  {
    var v := DigitsValue(tok[1..]);
    assert ScaledFeedrate(v, 100) == v;
    PrintParsed(tok[1..]);
  }

  /** A line that is already single-spaced, and whose first token is not a
      comment, comes back as its tokens rewritten and single-spaced. */
  lemma ModifiedOfSingleSpaced(ts: seq<string>, ov: Overrides, out: seq<string>)
    requires ts != [] && forall i :: 0 <= i < |ts| ==> IsWord(ts[i])
    requires |ts[0]| > 0 && ts[0][0] != ';'
    requires RewriteAll(ts, SpaceJoin(ts)[1..], ov) == Ok(out)
    ensures Modified(SpaceJoin(ts)[1..], ov) == Ok(SpaceJoin(out)[1..])
  {
    var s := SpaceJoin(ts);
    TrimmedSpaceJoin(ts);
    TrimIdempotent(s);
    TokensOfSpaceJoin(ts);
    assert s == " " + s[1..];
    TrimmedSpaceJoin(out);
  }
}
