/** String handling the streamer relies on: the whitespace classes of `trim`
    and of stream extraction, trimming, splitting into whitespace-separated
    tokens, prefix and substring tests, and decimal numerals. */
module Text {

  datatype Option<T> = None | Some(value: T)

  /** The characters `trim` strips from both ends: space, tab, CR and LF. */
  predicate IsTrimSpace(c: char) {
    c == ' ' || c == '\t' || c == '\r' || c == '\n'
  }

  /** The characters that separate tokens when a line is read with `>>`
      (C `isspace`): the four above plus vertical tab and form feed. */
  predicate IsSpace(c: char) {
    IsTrimSpace(c) || c == '\U{000B}' || c == '\U{000C}'
  }

  predicate AllTrimSpace(s: string) {
    forall k :: 0 <= k < |s| ==> IsTrimSpace(s[k])
  }

  /** A token: non-empty and free of separators. */
  predicate IsWord(t: string) {
    |t| > 0 && forall k :: 0 <= k < |t| ==> !IsSpace(t[k])
  }

  /** Index of the first character `trim` keeps (|s| if there is none). */
  function FirstKept(s: string): (i: nat)
    ensures i <= |s|
    ensures forall k :: 0 <= k < i ==> IsTrimSpace(s[k])
    ensures i < |s| ==> !IsTrimSpace(s[i])
  {
    if s == [] || !IsTrimSpace(s[0]) then 0 else 1 + FirstKept(s[1..])
  }

  /** One past the last character `trim` keeps (0 if there is none). */
  function LastKept(s: string): (j: nat)
    ensures j <= |s|
    ensures forall k :: j <= k < |s| ==> IsTrimSpace(s[k])
    ensures j > 0 ==> !IsTrimSpace(s[j - 1])
  {
    if s == [] || !IsTrimSpace(s[|s| - 1]) then |s| else LastKept(s[..|s| - 1])
  }

  /** The string with every leading and trailing space, tab, CR and LF
      removed: first erase up to the first kept character, then erase after
      the last kept one. */
  function Trimmed(s: string): string {
    var t := s[FirstKept(s)..];
    t[..LastKept(t)]
  }

  /** What `Trimmed` keeps: a contiguous piece of the input that starts at the
      first kept character, has only strippable characters on either side,
      begins and ends with a kept character, and is empty exactly when the
      whole input is strippable. */
  lemma TrimmedSpec(s: string)
    ensures var i := FirstKept(s); var r := Trimmed(s);
      && i + |r| <= |s|
      && r == s[i..i + |r|]
      && AllTrimSpace(s[..i])
      && AllTrimSpace(s[i + |r|..])
      && (r != [] ==> !IsTrimSpace(r[0]) && !IsTrimSpace(r[|r| - 1]))
      && (r == [] <==> AllTrimSpace(s))
  {
    TrimmedSlice(s);
    TrimmedEnds(s);
  }

  lemma TrimmedSlice(s: string)
    ensures var i := FirstKept(s); var r := Trimmed(s);
      && i + |r| <= |s|
      && r == s[i..i + |r|]
      && AllTrimSpace(s[..i])
      && AllTrimSpace(s[i + |r|..])
  {
    var i := FirstKept(s);
    var t := s[i..];
    var j := LastKept(t);
    assert Trimmed(s) == t[..j];
    assert t[..j] == s[i..i + j];
    var before, after := s[..i], s[i + j..];
    forall k | 0 <= k < |before| ensures IsTrimSpace(before[k]) {
      assert before[k] == s[k];
    }
    forall k | 0 <= k < |after| ensures IsTrimSpace(after[k]) {
      assert after[k] == t[j + k];
    }
  }

  lemma TrimmedEnds(s: string)
    ensures var r := Trimmed(s);
      && (r != [] ==> !IsTrimSpace(r[0]) && !IsTrimSpace(r[|r| - 1]))
      && (r == [] <==> AllTrimSpace(s))
  {
    var i := FirstKept(s);
    var t := s[i..];
    var j := LastKept(t);
    var r := Trimmed(s);
    assert r == t[..j];
    if i < |s| {
      assert t[0] == s[i] && !IsTrimSpace(t[0]);
      assert j > 0;
      assert r[0] == t[0];
      assert r[|r| - 1] == t[j - 1];
    }
  }

  /** A string that already starts and ends with kept characters is its own
      trim. */
  lemma TrimmedOfTrimmed(s: string)
    requires s == [] || (!IsTrimSpace(s[0]) && !IsTrimSpace(s[|s| - 1]))
    ensures Trimmed(s) == s
  {
    var i := FirstKept(s);
    if s != [] {
      assert i == 0;
      assert s[i..] == s;
      assert LastKept(s) == |s|;
    }
  }

  /** Trimming twice is trimming once. */
  lemma TrimIdempotent(s: string)
    ensures Trimmed(Trimmed(s)) == Trimmed(s)
  {
    TrimmedSpec(s);
    TrimmedOfTrimmed(Trimmed(s));
  }

  /** `trim`, erasing in place: find the first kept character from the front
      and the last one from the back, and keep what lies between. */
  method Trim(s: string) returns (r: string)
    ensures r == Trimmed(s)
  {
    var i := 0;
    while i < |s| && IsTrimSpace(s[i])
      invariant 0 <= i <= |s|
      invariant forall k :: 0 <= k < i ==> IsTrimSpace(s[k])
    {
      i := i + 1;
    }
    assert i == FirstKept(s) by { FirstKeptUnique(s, i); }
    var t := s[i..];
    var j := |t|;
    while j > 0 && IsTrimSpace(t[j - 1])
      invariant 0 <= j <= |t|
      invariant forall k :: j <= k < |t| ==> IsTrimSpace(t[k])
    {
      j := j - 1;
    }
    assert j == LastKept(t) by { LastKeptUnique(t, j); }
    r := t[..j];
  }

  lemma {:induction false} FirstKeptUnique(s: string, i: nat)
    requires i <= |s|
    requires forall k :: 0 <= k < i ==> IsTrimSpace(s[k])
    requires i < |s| ==> !IsTrimSpace(s[i])
    ensures FirstKept(s) == i
  {
    var f := FirstKept(s);
    assert f < |s| ==> !IsTrimSpace(s[f]);
    assert i < |s| ==> !IsTrimSpace(s[i]);
  }

  lemma {:induction false} WordEndUnique(s: string, k: nat)
    requires k < |s| && IsSpace(s[k])
    requires forall i :: 0 <= i < k ==> !IsSpace(s[i])
    ensures WordEnd(s) == k
  {
    var e := WordEnd(s);
    assert e <= k;
    assert e < |s| && IsSpace(s[e]);
  }

  lemma {:induction false} LastKeptUnique(s: string, j: nat)
    requires j <= |s|
    requires forall k :: j <= k < |s| ==> IsTrimSpace(s[k])
    requires j > 0 ==> !IsTrimSpace(s[j - 1])
    ensures LastKept(s) == j
  {
    var l := LastKept(s);
    assert l > 0 ==> !IsTrimSpace(s[l - 1]);
    assert j > 0 ==> !IsTrimSpace(s[j - 1]);
  }

  // ---------------------------------------------------------------------
  // Tokens

  /** Length of the run of non-separators at the front of `s`. */
  function WordEnd(s: string): (k: nat)
    ensures k <= |s|
    ensures forall i :: 0 <= i < k ==> !IsSpace(s[i])
    ensures k < |s| ==> IsSpace(s[k])
  {
    if s == [] || IsSpace(s[0]) then 0 else 1 + WordEnd(s[1..])
  }

  /** The whitespace-separated tokens of `s`, in order, as repeated `>>`
      extraction yields them. */
  function Tokens(s: string): (ts: seq<string>)
    ensures forall i :: 0 <= i < |ts| ==> IsWord(ts[i])
    decreases |s|
  {
    if s == [] then []
    else if IsSpace(s[0]) then Tokens(s[1..])
    else
      var k := WordEnd(s);
      [s[..k]] + Tokens(s[k..])
  }

  /** Tokens each preceded by one space, the way the transformer accumulates
      its result. */
  function SpaceJoin(ts: seq<string>): string {
    if ts == [] then "" else " " + ts[0] + SpaceJoin(ts[1..])
  }

  lemma {:induction false} SpaceJoinAppend(ts: seq<string>, t: string)
    ensures SpaceJoin(ts + [t]) == SpaceJoin(ts) + " " + t
  {
    if ts == [] {
      assert ts + [t] == [t];
    } else {
      assert (ts + [t])[1..] == ts[1..] + [t];
      SpaceJoinAppend(ts[1..], t);
    }
  }

  /** Splitting a single-space join of tokens gives the tokens back. */
  lemma {:induction false} TokensOfSpaceJoin(ts: seq<string>)
    requires forall i :: 0 <= i < |ts| ==> IsWord(ts[i])
    ensures Tokens(SpaceJoin(ts)) == ts
  {
    if ts != [] {
      var t := ts[0];
      var rest := SpaceJoin(ts[1..]);
      var s := SpaceJoin(ts);
      assert s[1..] == t + rest;
      assert rest == [] || rest[0] == ' ';
      var k := WordEnd(t + rest);
      assert k == |t| by {
        assert k < |t| + |rest| ==> IsSpace((t + rest)[k]);
        assert forall i :: 0 <= i < |t| ==> (t + rest)[i] == t[i];
        assert |rest| > 0 ==> (t + rest)[|t|] == rest[0];
      }
      assert (t + rest)[..k] == t;
      assert (t + rest)[k..] == rest;
      TokensOfSpaceJoin(ts[1..]);
    }
  }

  /** The last character of a non-empty join is the last character of the
      last token. */
  lemma SpaceJoinLast(ts: seq<string>)
    requires ts != [] && |ts[|ts| - 1]| > 0
    ensures var s := SpaceJoin(ts); var t := ts[|ts| - 1];
      |s| > 0 && s[|s| - 1] == t[|t| - 1]
  {
    SpaceJoinAppend(ts[..|ts| - 1], ts[|ts| - 1]);
    assert ts[..|ts| - 1] + [ts[|ts| - 1]] == ts;
  }

  /** Trimming a non-empty join only drops its leading space. */
  lemma TrimmedSpaceJoin(ts: seq<string>)
    requires ts != []
    requires forall i :: 0 <= i < |ts| ==> IsWord(ts[i])
    ensures var s := SpaceJoin(ts); |s| > 0 && Trimmed(s) == s[1..]
  {
    var s := SpaceJoin(ts);
    assert s[1] == ts[0][0];
    FirstKeptUnique(s, 1);
    SpaceJoinLast(ts);
    var t := s[1..];
    assert t[|t| - 1] == s[|s| - 1];
    LastKeptUnique(t, |t|);
  }

  /** Leading separators do not change the tokens. */
  lemma {:induction false} TokensSkipLeading(p: string, s: string)
    requires forall k :: 0 <= k < |p| ==> IsSpace(p[k])
    ensures Tokens(p + s) == Tokens(s)
  {
    if p == [] {
      assert p + s == s;
    } else {
      assert (p + s)[0] == p[0];
      assert (p + s)[1..] == p[1..] + s;
      TokensSkipLeading(p[1..], s);
    }
  }

  /** Trailing separators do not change the tokens. */
  lemma {:induction false} TokensDropTrailing(s: string, q: string)
    requires forall k :: 0 <= k < |q| ==> IsSpace(q[k])
    ensures Tokens(s + q) == Tokens(s)
    decreases |s|
  {
    if s == [] {
      assert s + q == q;
      TokensSkipLeading(q, []);
      assert q + [] == q;
    } else if IsSpace(s[0]) {
      assert (s + q)[1..] == s[1..] + q;
      TokensDropTrailing(s[1..], q);
    } else {
      var k := WordEnd(s);
      var kq := WordEnd(s + q);
      assert kq == k by {
        assert forall i :: 0 <= i < |s| ==> (s + q)[i] == s[i];
        assert k == |s| && |q| > 0 ==> (s + q)[k] == q[0];
        assert kq < |s + q| ==> IsSpace((s + q)[kq]);
      }
      assert (s + q)[..k] == s[..k];
      assert (s + q)[k..] == s[k..] + q;
      TokensDropTrailing(s[k..], q);
    }
  }

  /** Trimming does not change the tokens. */
  lemma TokensOfTrimmed(s: string)
    ensures Tokens(Trimmed(s)) == Tokens(s)
  {
    TrimmedSpec(s);
    var i := FirstKept(s);
    var r := Trimmed(s);
    var p, q := s[..i], s[i + |r|..];
    assert s == p + (r + q);
    TokensSkipLeading(p, r + q);
    TokensDropTrailing(r, q);
  }

  // ---------------------------------------------------------------------
  // Prefixes and substrings

  /** `s.find(pat) == 0`. */
  predicate StartsWith(s: string, pat: string) {
    |pat| <= |s| && s[..|pat|] == pat
  }

  /** `s.find(pat) != npos`. */
  predicate Contains(s: string, pat: string)
    decreases |s|
  {
    |pat| <= |s| && (s[..|pat|] == pat || Contains(s[1..], pat))
  }

  /** `pat` occurs in `s` starting at index `i`. */
  predicate OccursAt(s: string, pat: string, i: nat) {
    i + |pat| <= |s| && s[i..i + |pat|] == pat
  }

  /** `Contains` holds exactly when `pat` occurs at some position of `s`. */
  lemma {:induction false} ContainsAt(s: string, pat: string)
    ensures Contains(s, pat) <==> exists i: nat :: OccursAt(s, pat, i)
    decreases |s|
  {
    if |pat| > |s| {
      forall i: nat ensures !OccursAt(s, pat, i) { }
    } else if s[..|pat|] == pat {
      assert OccursAt(s, pat, 0);
    } else {
      ContainsAt(s[1..], pat);
      forall i: nat | OccursAt(s[1..], pat, i) ensures OccursAt(s, pat, i + 1) {
        assert s[1..][i..i + |pat|] == s[i + 1..i + 1 + |pat|];
      }
      forall i: nat | OccursAt(s, pat, i) ensures i > 0 && OccursAt(s[1..], pat, i - 1) {
        assert s[1..][i - 1..i - 1 + |pat|] == s[i..i + |pat|];
      }
    }
  }

  // ---------------------------------------------------------------------
  // Decimal numerals

  predicate IsDigit(c: char) {
    '0' <= c <= '9'
  }

  predicate AllDigits(s: string) {
    forall k :: 0 <= k < |s| ==> IsDigit(s[k])
  }

  function DigitChar(d: nat): (c: char)
    requires d < 10
    ensures IsDigit(c) && c as int - '0' as int == d
  {
    ('0' as int + d) as char
  }

  /** The value of a string of decimal digits (0 for the empty string). */
  function DigitsValue(s: string): nat
    requires AllDigits(s)
  {
    if s == [] then 0
    else 10 * DigitsValue(s[..|s| - 1]) + (s[|s| - 1] as int - '0' as int)
  }

  /** A non-negative integer read from a string made only of decimal digits. */
  function ParseNat(s: string): Option<nat> {
    if |s| > 0 && AllDigits(s) then Some(DigitsValue(s)) else None
  }

  /** `std::to_string` of a non-negative integer: decimal, no sign, no
      leading zeros. */
  function NatToString(n: nat): (r: string)
    ensures |r| > 0 && AllDigits(r)
    ensures r[0] == '0' ==> n == 0 && r == "0"
  {
    if n < 10 then [DigitChar(n)] else NatToString(n / 10) + [DigitChar(n % 10)]
  }

  /** Reading back a printed number gives the number. */
  lemma {:induction false} ParsePrinted(n: nat)
    ensures ParseNat(NatToString(n)) == Some(n)
  {
    var r := NatToString(n);
    if n >= 10 {
      ParsePrinted(n / 10);
      assert r[..|r| - 1] == NatToString(n / 10);
      assert r[|r| - 1] == DigitChar(n % 10);
      assert DigitsValue(r) == 10 * (n / 10) + n % 10;
    }
  }

  /** Printing the value of a numeral without superfluous leading zeros gives
      the numeral back. */
  lemma {:induction false} PrintParsed(s: string)
    requires |s| > 0 && AllDigits(s) && (s[0] == '0' ==> |s| == 1)
    ensures NatToString(DigitsValue(s)) == s
  {
    var n := DigitsValue(s);
    if |s| == 1 {
      assert s[..0] == [];
    } else {
      var p := s[..|s| - 1];
      PrintParsed(p);
      DigitsValuePositive(p);
      assert n / 10 == DigitsValue(p);
    }
  }

  lemma DigitsValuePositive(s: string)
    requires |s| > 0 && AllDigits(s) && s[0] != '0'
    ensures DigitsValue(s) >= 1
  {
    if |s| > 1 {
      DigitsValuePositive(s[..|s| - 1]);
    }
  }
}
