/** Worked examples: concrete source lines through the transformer, a
    concrete frame, and the classification of typical printer responses. */
module Scenarios {
  import opened Text
  import opened Transform
  import opened Framing
  import R = Responses
  import SessionProperties

  /** Two single-spaced tokens, each rewritten on its own. */
  lemma ModifiedTwoTokens(a: string, b: string, ov: Overrides, a': string, b': string)
    requires IsWord(a) && IsWord(b) && a[0] != ';'
    requires RewriteToken(a, a + " " + b, ov) == Ok(a')
    requires RewriteToken(b, a + " " + b, ov) == Ok(b')
    ensures Modified(a + " " + b, ov) == Ok(a' + " " + b')
  {
    var line := a + " " + b;
    JoinTwo(a, b);
    JoinTwo(a', b');
    RewriteTwo(a, b, line, ov, a', b');
    ModifiedOfSingleSpaced([a, b], ov, [a', b']);
  }

  lemma RewriteTwo(a: string, b: string, line: string, ov: Overrides, a': string, b': string)
    requires RewriteToken(a, line, ov) == Ok(a')
    requires RewriteToken(b, line, ov) == Ok(b')
    ensures RewriteAll([a, b], line, ov) == Ok([a', b'])
  {
    var ts := [a, b];
    assert [a][..0] == [] && [] + [a'] == [a'];
    assert RewriteAll([a], line, ov) == Ok([a']);
    assert ts[..|ts| - 1] == [a] && ts[|ts| - 1] == b;
    assert [a'] + [b'] == [a', b'];
  }

  lemma JoinTwo(a: string, b: string)
    ensures SpaceJoin([a, b])[1..] == a + " " + b
  {
    assert [a, b][1..] == [b];
    assert SpaceJoin([b]) == " " + b;
  }

  /** A feedrate of 3 mm/min at 150 percent becomes 5 (4.5 rounded half
      up). */
  lemma FeedrateExample()
    ensures Modified("G1 F3", Overrides(150, -1, -1)) == Ok("G1 F5")
  {
    var ov := Overrides(150, -1, -1);
    FeedrateToken();
    assert RewriteToken("G1", "G1 F3", ov) == Ok("G1");
    assert "G1" + " " + "F3" == "G1 F3";
    assert "G1" + " " + "F5" == "G1 F5";
    ModifiedTwoTokens("G1", "F3", ov, "G1", "F5");
  }

  lemma FeedrateToken()
    ensures RewriteToken("F3", "G1 F3", Overrides(150, -1, -1)) == Ok("F5")
  {
    assert "3"[..0] == "";
    assert ParseNat("3") == Some(3);
    assert ScaledFeedrate(3, 150) == 5;
    assert NatToString(5) == "5";
    assert "F3"[1..] == "3" && Code("F3") == 'F';
    assert "F" + "5" == "F5";
  }

  /** A forced bed temperature replaces the S value of a bed command. */
  lemma BedExample()
    ensures Modified("M140 S60", Overrides(-1, 70, -1)) == Ok("M140 S70")
  {
    var ov := Overrides(-1, 70, -1);
    assert StartsWith("M140 S60", "M140");
    assert NatToString(70) == "70" by { assert NatToString(7) == "7"; }
    assert "S" + "70" == "S70";
    assert RewriteToken("S60", "M140 S60", ov) == Ok("S70");
    assert RewriteToken("M140", "M140 S60", ov) == Ok("M140");
    assert "M140" + " " + "S60" == "M140 S60";
    assert "M140" + " " + "S70" == "M140 S70";
    ModifiedTwoTokens("M140", "S60", ov, "M140", "S70");
  }

  /** A forced hotend temperature replaces the S value of a hotend command. */
  lemma HotendExample()
    ensures Modified("M104 S200", Overrides(-1, -1, 215)) == Ok("M104 S215")
  {
    var ov := Overrides(-1, -1, 215);
    NotBedCommand();
    assert StartsWith("M104 S200", "M104");
    assert NatToString(215) == "215" by { assert NatToString(2) == "2"; assert NatToString(21) == "21"; }
    assert "S" + "215" == "S215";
    assert RewriteToken("S200", "M104 S200", ov) == Ok("S215");
    assert RewriteToken("M104", "M104 S200", ov) == Ok("M104");
    assert "M104" + " " + "S200" == "M104 S200";
    assert "M104" + " " + "S215" == "M104 S215";
    ModifiedTwoTokens("M104", "S200", ov, "M104", "S215");
  }

  /** The bed override does not touch a hotend command. */
  lemma BedOverrideSkipsHotend()
    ensures Modified("M104 S200", Overrides(-1, 70, -1)) == Ok("M104 S200")
  {
    var ov := Overrides(-1, 70, -1);
    NotBedCommand();
    assert RewriteToken("S200", "M104 S200", ov) == Ok("S200");
    assert RewriteToken("M104", "M104 S200", ov) == Ok("M104");
    assert "M104" + " " + "S200" == "M104 S200";
    ModifiedTwoTokens("M104", "S200", ov, "M104", "S200");
  }

  lemma NotBedCommand()
    ensures !IsBedCommand("M104 S200")
  {
    assert "M104 S200"[..4] == "M104";
    assert "M104"[2] != "M140"[2] && "M104"[2] != "M190"[2];
  }

  /** A line with a doubled space comes back single-spaced even though no
      rule applies to it. */
  lemma SpacingNormalised()
    ensures Modified("G1  X10", NoOverrides) == Ok("G1 X10")
  {
    assert IsWord("G1") && IsWord("X10");
    assert "G1" + "  " + "X10" == "G1  X10";
    assert "G1" + " " + "X10" == "G1 X10";
    assert RewriteToken("G1", "G1  X10", NoOverrides) == Ok("G1");
    assert RewriteToken("X10", "G1  X10", NoOverrides) == Ok("X10");
    ModifiedTwoTokensSpaced("G1", "X10", NoOverrides, "G1", "X10");
  }

  /** Two tokens separated by two spaces, each rewritten on its own: the
      result is single-spaced. */
  lemma ModifiedTwoTokensSpaced(a: string, b: string, ov: Overrides, a': string, b': string)
    requires IsWord(a) && IsWord(b) && a[0] != ';'
    requires RewriteToken(a, a + "  " + b, ov) == Ok(a')
    requires RewriteToken(b, a + "  " + b, ov) == Ok(b')
    ensures Modified(a + "  " + b, ov) == Ok(a' + " " + b')
  {
    var line := a + "  " + b;
    assert Trimmed(line) == line by {
      assert line[0] == a[0] && line[|line| - 1] == b[|b| - 1];
      TrimmedOfTrimmed(line);
    }
    assert Tokens(line) == [a, b] by {
      assert forall k :: 0 <= k < |"  "| ==> IsSpace("  "[k]);
      TwoTokens(a, "  ", b);
    }
    assert RewriteAll([a, b], line, ov) == Ok([a', b']) by {
      RewriteTwo(a, b, line, ov, a', b');
    }
    assert Trimmed(SpaceJoin([a', b'])) == a' + " " + b' by {
      JoinTwo(a', b');
      TrimmedSpaceJoin([a', b']);
    }
    assert SpaceJoin([a', b']) != " " + line by {
      SingleSpacedDiffers(a', b', a, b);
    }
    ModifiedRewritten(line, ov, [a', b']);
  }

  /** A trimmed command line whose rewritten tokens, joined, differ from it
      comes out as the trimmed join. */
  lemma ModifiedRewritten(line: string, ov: Overrides, out: seq<string>)
    requires Trimmed(line) == line && line != [] && line[0] != ';'
    requires RewriteAll(Tokens(line), line, ov) == Ok(out)
    requires SpaceJoin(out) != " " + line
    ensures Modified(line, ov) == Ok(Trimmed(SpaceJoin(out)))
  {
  }

  /** A single-spaced pair never reads as a double-spaced one. */
  lemma SingleSpacedDiffers(a': string, b': string, a: string, b: string)
    requires IsWord(a') && IsWord(b')
    ensures SpaceJoin([a', b']) != " " + (a + "  " + b)
  {
    var j, t := SpaceJoin([a', b']), " " + (a + "  " + b);
    JoinTwo(a', b');
    assert j == " " + (a' + " " + b');
    assert forall k :: 1 <= k <= |a'| ==> j[k] == a'[k - 1];
    assert forall k :: |a'| + 1 < k < |j| ==> j[k] == b'[k - |a'| - 2];
    assert t[|a| + 1] == ' ' && t[|a| + 2] == ' ';
  }

  /** Two words separated by blanks are read as those two tokens. */
  lemma TwoTokens(a: string, gap: string, b: string)
    requires IsWord(a) && IsWord(b) && gap != []
    requires forall k :: 0 <= k < |gap| ==> IsSpace(gap[k])
    ensures Tokens(a + gap + b) == [a, b]
  {
    assert a + gap + b == a + (gap + b);
    WordThenSpace(a, gap + b);
    assert Tokens(gap + b) == [b] by {
      TokensSkipLeading(gap, b);
      TokensSkipLeading(" ", b);
      TokensOfSpaceJoin([b]);
      assert SpaceJoin([b]) == " " + b;
    }
  }

  /** A word followed by a separator is the first token. */
  lemma WordThenSpace(a: string, rest: string)
    requires IsWord(a) && rest != [] && IsSpace(rest[0])
    ensures Tokens(a + rest) == [a] + Tokens(rest)
  {
    var s := a + rest;
    assert WordEnd(s) == |a| by {
      assert s[|a|] == rest[0];
      assert forall k :: 0 <= k < |a| ==> s[k] == a[k];
      WordEndUnique(s, |a|);
    }
    assert s[0] == a[0];
    assert s[..|a|] == a && s[|a|..] == rest;
  }

  /** The frame for the first command of a homing-only file. */
  lemma FrameExample()
    ensures Wire(1, "G28") == "N1 G28*18\n"
  {
    assert NatToString(1) == "1";
    assert Payload(1, "G28") == "N1 G28";
    ChecksumExample();
    assert NatToString(18) == "18" by { assert NatToString(1) == "1"; }
    assert Trailer(18) == "*18\n";
    assert "N1 G28" + "*18\n" == "N1 G28*18\n";
  }

  /** The exclusive-or of "N1 G28", byte by byte: 0x4E, 0x7F, 0x5F, 0x18,
      0x2A, 0x12. */
  lemma ChecksumExample()
    ensures Checksum("N1 G28") == 18
  {
    assert "N1 G28"[..5] == "N1 G2";
    ChecksumOfG2();
  }

  lemma ChecksumOfG2()
    ensures Checksum("N1 G2") == 0x2A
  {
    assert "N1 G2"[..4] == "N1 G";
    ChecksumOfG();
  }

  lemma ChecksumOfG()
    ensures Checksum("N1 G") == 0x18
  {
    assert "N1 G"[..3] == "N1 ";
    ChecksumOfHeader();
  }

  lemma ChecksumOfHeader()
    ensures Checksum("N1 ") == 0x5F
  {
    assert "N1 "[..2] == "N1";
    ChecksumOfN1();
  }

  lemma ChecksumOfN1()
    ensures Checksum("N1") == 0x7F
  {
    assert "N1"[..1] == "N" && "N"[..0] == "";
    assert Checksum("N") == 0x4E;
  }

  /** How typical responses are read: an acknowledgment, a resend request,
      the idle message the printer sends while it waits for input, and
      silence. */
  lemma ClassifyOk()
    ensures R.Classify("ok") == R.Ack.Ok
  {
  }

  lemma ClassifyResend()
    ensures R.Classify("Resend: 3") == R.Resend
  {
    var r := "Resend: 3";
    assert r[..6] == "Resend";
    LacksFirstChar(r, "ok");
  }

  lemma ClassifyWait()
    ensures R.Classify("wait") == R.Unrecognized
  {
    LacksFirstChar("wait", "ok");
    LacksFirstChar("wait", "rs");
  }

  /** An idle message followed by an acknowledgment acknowledges a frame
      without a resend. */
  lemma WaitThenOk()
    ensures SessionProperties.AckRun(["wait", "ok"])
  {
    ClassifyWait();
    assert ["wait", "ok"][..1] == ["wait"];
  }

  /** A string without the first character of a pattern does not contain
      it. */
  lemma {:induction false} LacksFirstChar(s: string, pat: string)
    requires pat != [] && forall k :: 0 <= k < |s| ==> s[k] != pat[0]
    ensures !Contains(s, pat)
  {
    if |pat| <= |s| {
      assert s[..|pat|][0] != pat[0];
      LacksFirstChar(s[1..], pat);
    }
  }

  lemma ClassifySilence()
    ensures R.Classify("") == R.Timeout
  {
  }
}
