/** The acknowledgment reader: how the bytes arriving from the printer become
    one response line, and how the streaming loop classifies a response. */
module Responses {
  import opened Text
  import opened Framing

  /** `s` with every CR dropped, the other characters kept in order. */
  function WithoutCR(s: string): (r: string)
    ensures |r| <= |s|
    ensures forall k :: 0 <= k < |r| ==> r[k] != '\r' && r[k] in s
  {
    if s == [] then []
    else WithoutCR(s[..|s| - 1]) + (if s[|s| - 1] == '\r' then [] else [s[|s| - 1]])
  }

  /** The line assembled from `input`, the bytes that arrive before the
      silence deadline: the bytes before the first LF with every CR dropped,
      or, when no LF arrives, the empty string that stands for a timeout. */
  function ResponseLine(input: string): (r: string)
    ensures forall k :: 0 <= k < |r| ==> r[k] != '\r' && r[k] != '\n'
  {
    match IndexOf(input, '\n')
    case None => ""
    case Some(k) => WithoutCR(input[..k])
  }

  /** How many of the arriving bytes one read consumes. */
  function Consumed(input: string): nat {
    match IndexOf(input, '\n')
    case None => |input|
    case Some(k) => k + 1
  }

  /** The reading loop: one byte at a time, a LF ends the line, a CR is
      never appended, and running out of bytes before a LF is a timeout. */
  method ReadLine(input: string) returns (line: string, used: nat)
    ensures line == ResponseLine(input)
    ensures used == Consumed(input)
  {
    line := "";
    var i := 0;
    while i < |input|
      invariant 0 <= i <= |input|
      invariant forall k :: 0 <= k < i ==> input[k] != '\n'
      invariant line == WithoutCR(input[..i])
    {
      var ch := input[i];
      assert input[..i + 1][..i] == input[..i];
      i := i + 1;
      if ch == '\n' {
        IndexOfUnique(input, '\n', i - 1);
        return line, i;
      }
      if ch != '\r' {
        line := line + [ch];
      }
    }
    assert forall k :: 0 <= k < |input| ==> input[k] != '\n';
    line, used := "", |input|;
  }

  /** A string without CR is left alone by `WithoutCR`. */
  lemma {:induction false} WithoutCRIdentity(s: string)
    requires forall k :: 0 <= k < |s| ==> s[k] != '\r'
    ensures WithoutCR(s) == s
  {
    if s != [] {
      WithoutCRIdentity(s[..|s| - 1]);
    }
  }

  /** A printer line ended by LF or by CR LF reads back as exactly its text,
      and the read stops right after the LF. */
  lemma TerminatedLine(s: string, rest: string)
    requires forall k :: 0 <= k < |s| ==> s[k] != '\r' && s[k] != '\n'
    ensures ResponseLine(s + "\n" + rest) == s && Consumed(s + "\n" + rest) == |s| + 1
    ensures ResponseLine(s + "\r\n" + rest) == s && Consumed(s + "\r\n" + rest) == |s| + 2
  {
    WithoutCRIdentity(s);
    var a := s + "\n" + rest;
    assert a[|s|] == '\n';
    assert forall k :: 0 <= k < |s| ==> a[k] == s[k];
    IndexOfUnique(a, '\n', |s|);
    assert a[..|s|] == s;
    var b := s + "\r\n" + rest;
    assert b[|s| + 1] == '\n';
    assert forall k :: 0 <= k < |s| ==> b[k] == s[k];
    assert b[|s|] == '\r';
    IndexOfUnique(b, '\n', |s| + 1);
    assert b[..|s| + 1] == s + "\r";
    assert (s + "\r")[..|s|] == s;
  }

  /** A line that is not terminated before the deadline reads as the empty
      timeout sentinel, and so does an empty printer line. */
  lemma SilenceReadsEmpty(input: string)
    requires forall k :: 0 <= k < |input| ==> input[k] != '\n'
    ensures ResponseLine(input) == [] && Consumed(input) == |input|
    ensures ResponseLine("\n" + input) == [] && Consumed("\n" + input) == 1
  {
    assert ("\n" + input)[0] == '\n';
    IndexOfUnique("\n" + input, '\n', 0);
  }

  // ---------------------------------------------------------------------
  // Classification

  datatype Ack = Ok | Resend | Unrecognized | Timeout

  /** The streaming loop's reading of a response: empty is a timeout; one
      containing "ok" is an acknowledgment, tested first; one containing
      "Resend" or "rs" asks for the frame again; anything else is ignored. */
  function Classify(resp: string): Ack {
    if resp == [] then Timeout
    else if Contains(resp, "ok") then Ok
    else if Contains(resp, "Resend") || Contains(resp, "rs") then Resend
    else Unrecognized
  }

  /** The classification in terms of where the key words occur: "ok"
      anywhere wins over a resend request; a resend request is "Resend" or
      "rs" anywhere in a response without "ok". */
  lemma ClassifyByOccurrence(resp: string)
    ensures Classify(resp) == Timeout <==> resp == []
    ensures Classify(resp) == Ok <==> exists i: nat :: OccursAt(resp, "ok", i)
    ensures Classify(resp) == Resend <==>
      && (forall i: nat :: !OccursAt(resp, "ok", i))
      && ((exists i: nat :: OccursAt(resp, "Resend", i)) || (exists i: nat :: OccursAt(resp, "rs", i)))
  {
    ContainsAt(resp, "ok");
    ContainsAt(resp, "Resend");
    ContainsAt(resp, "rs");
  }
}
