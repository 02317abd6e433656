/** Splitting an uploaded script into test cases on a literal delimiter:
    containsTestCases and splitIntoTestCases of src/rpi/main.c.
    A script is the text before its terminating NUL, as a string. */
module TestSplit {

  /** The literal that separates test cases in a script. */
  const Delimiter: string := "/* -------------------------TEST------------------- */"

  /** The most test cases one script is split into (MAX_TEST_CASES). */
  const MaxTestCases: nat := 10

  datatype Option<T> = None | Some(value: T)

  /** pat occurs in s starting at index k. */
  predicate OccursAt(s: string, pat: string, k: int)
  {
    0 <= k && k + |pat| <= |s| && s[k..k + |pat|] == pat
  }

  /** pat occurs nowhere in s. */
  ghost predicate Free(s: string, pat: string)
  {
    forall k :: !OccursAt(s, pat, k)
  }

  /** An occurrence in s[1..] is an occurrence in s one place further on. */
  lemma OccursShift(s: string, pat: string, k: int)
    requires |s| > 0 && k >= 0
    ensures OccursAt(s[1..], pat, k) <==> OccursAt(s, pat, k + 1)
  {
    if 0 <= k && k + |pat| <= |s| - 1 {
      assert s[1..][k..k + |pat|] == s[k + 1..k + 1 + |pat|];
    }
  }

  /** strstr: the offset of the first occurrence of pat in s, if any. */
  function Find(s: string, pat: string): (r: Option<nat>)
    ensures r.Some? ==> r.value + |pat| <= |s|
    decreases |s|
  {
    if |s| < |pat| then None
    else if s[..|pat|] == pat then Some(0)
    else
      match Find(s[1..], pat)
      case None => None
      case Some(k) => Some(k + 1)
  }

  /** Find reports the first occurrence, and reports none exactly when
      there is none. */
  lemma {:induction false} FindFirst(s: string, pat: string)
    ensures Find(s, pat).Some? ==> OccursAt(s, pat, Find(s, pat).value)
    ensures Find(s, pat).Some? ==> forall j :: 0 <= j < Find(s, pat).value ==> !OccursAt(s, pat, j)
    ensures Find(s, pat).None? <==> Free(s, pat)
    decreases |s|
  {
    if |s| < |pat| {
    } else if s[..|pat|] == pat {
    } else {
      FindFirst(s[1..], pat);
      forall k | k >= 0 ensures OccursAt(s[1..], pat, k) <==> OccursAt(s, pat, k + 1) {
        OccursShift(s, pat, k);
      }
      assert forall k :: OccursAt(s, pat, k) ==> k >= 1 && OccursAt(s[1..], pat, k - 1);
    }
  }

  /** containsTestCases: the script holds the delimiter somewhere. */
  function ContainsTestCases(script: string): (r: bool)
    ensures r <==> exists k :: OccursAt(script, Delimiter, k)
  {
    FindFirst(script, Delimiter);
    Find(script, Delimiter).Some?
  }

  /** The script cut at every delimiter found left to right by repeated
      first-occurrence search: the spans between delimiters, empty ones
      included, and the remainder after the last delimiter. */
  function Spans(s: string): (r: seq<string>)
    ensures |r| >= 1
    decreases |s|
  {
    match Find(s, Delimiter)
    case None => [s]
    case Some(k) => [s[..k]] + Spans(s[k + |Delimiter|..])
  }

  /** The parts glued back together with sep between neighbours. */
  function Join(parts: seq<string>, sep: string): string
  {
    if |parts| == 0 then []
    else if |parts| == 1 then parts[0]
    else parts[0] + sep + Join(parts[1..], sep)
  }

  /** The non-empty parts, in their order. */
  function NonEmpty(parts: seq<string>): (r: seq<string>)
  {
    if |parts| == 0 then []
    else if parts[0] == [] then NonEmpty(parts[1..])
    else [parts[0]] + NonEmpty(parts[1..])
  }

  /** At most n leading parts. */
  function Take(parts: seq<string>, n: nat): (r: seq<string>)
  {
    if |parts| <= n then parts else parts[..n]
  }

  /** The test cases a script yields: its first MaxTestCases non-empty spans. */
  function TestCases(script: string): seq<string>
  {
    Take(NonEmpty(Spans(script)), MaxTestCases)
  }

  /** One step of the search loop: cutting a leading span off rest and
      keeping it only when it is not empty. */
  lemma TakeNext(rest: string, k: nat, m: nat)
    requires Find(rest, Delimiter) == Some(k)
    requires m > 0
    ensures var after := rest[k + |Delimiter|..];
      Take(NonEmpty(Spans(rest)), m)
      == if k > 0 then [rest[..k]] + Take(NonEmpty(Spans(after)), m - 1)
         else Take(NonEmpty(Spans(after)), m)
  {
    var after := rest[k + |Delimiter|..];
    assert Spans(rest) == [rest[..k]] + Spans(after);
    assert Spans(rest)[1..] == Spans(after);
    if k > 0 {
      assert NonEmpty(Spans(rest)) == [rest[..k]] + NonEmpty(Spans(after));
    }
  }

  /** The cases the search loop collects from rest when there is room
      for room more: one step per delimiter found, then the remainder. */
  function Collect(rest: string, room: nat): seq<string>
    decreases |rest|
  {
    if room == 0 then []
    else match Find(rest, Delimiter)
      case None => if rest == [] then [] else [rest]
      case Some(k) =>
        if k > 0 then [rest[..k]] + Collect(rest[k + |Delimiter|..], room - 1)
        else Collect(rest[k + |Delimiter|..], room)
  }

  /** The search loop collects the first room non-empty spans. */
  lemma {:induction false} CollectIsTake(rest: string, room: nat)
    ensures Collect(rest, room) == Take(NonEmpty(Spans(rest)), room)
    decreases |rest|
  {
    if room == 0 {
    } else {
      match Find(rest, Delimiter)
      case None =>
        assert Spans(rest) == [rest];
        assert [rest][1..] == [];
        if rest == [] {
          assert NonEmpty([rest]) == [];
        } else {
          assert NonEmpty([rest]) == [rest];
        }
      case Some(k) =>
        CollectIsTake(rest[k + |Delimiter|..], if k > 0 then room - 1 else room);
        TakeNext(rest, k, room);
    }
  }

  /** One iteration of the search loop keeps what is stored plus what is
      still to come unchanged. */
  lemma CollectStep(done: seq<string>, rest: string, room: nat)
    requires Find(rest, Delimiter).Some? && room > 0
    ensures var k := Find(rest, Delimiter).value;
      done + Collect(rest, room)
      == if k > 0 then (done + [rest[..k]]) + Collect(rest[k + |Delimiter|..], room - 1)
         else done + Collect(rest[k + |Delimiter|..], room)
  {
    var k := Find(rest, Delimiter).value;
    if k > 0 {
      var later := Collect(rest[k + |Delimiter|..], room - 1);
      assert done + ([rest[..k]] + later) == (done + [rest[..k]]) + later;
    }
  }

  /** splitIntoTestCases: scan for the delimiter with strstr, store every
      non-empty span before it, stop after MaxTestCases cases, then store
      the non-empty remainder if there is still room. The C pointer start
      into the script is the suffix of the script it points at.
      Allocation of each case is taken to succeed. */
  method SplitIntoTestCases(script: string) returns (testCases: seq<string>, testCaseCount: int)
    ensures testCaseCount == |testCases| <= MaxTestCases
    ensures testCases == TestCases(script)
  {
    var start := script;
    testCases := [];
    testCaseCount := 0;
    while Find(start, Delimiter).Some? && testCaseCount < MaxTestCases
      invariant testCaseCount == |testCases| <= MaxTestCases
      invariant testCases + Collect(start, MaxTestCases - testCaseCount) == Collect(script, MaxTestCases)
      decreases |start|
    {
      var length := Find(start, Delimiter).value;
      CollectStep(testCases, start, MaxTestCases - testCaseCount);
      if length > 0 {
        testCases := testCases + [start[..length]];
        testCaseCount := testCaseCount + 1;
      }
      start := start[length + |Delimiter|..];
    }
    if start != [] && testCaseCount < MaxTestCases {
      testCases := testCases + [start];
      testCaseCount := testCaseCount + 1;
    }
    CollectIsTake(script, MaxTestCases);
  }

  /** Joining a part in front of at least one more. */
  lemma JoinCons(head: string, tail: seq<string>, sep: string)
    requires |tail| >= 1
    ensures Join([head] + tail, sep) == head + sep + Join(tail, sep)
  {
    assert ([head] + tail)[1..] == tail;
  }

  /** A string is the part before an occurrence, the occurrence and the
      part after it. */
  lemma CutAt(s: string, pat: string, k: int)
    requires OccursAt(s, pat, k)
    ensures s == s[..k] + pat + s[k + |pat|..]
  {
    assert s[k..] == pat + s[k + |pat|..];
    assert s == s[..k] + s[k..];
  }

  /** Gluing the spans back together with the delimiter gives the script. */
  lemma {:induction false} JoinSpans(s: string)
    ensures Join(Spans(s), Delimiter) == s
    decreases |s|
  {
    match Find(s, Delimiter)
    case None =>
    case Some(k) =>
      var rest := s[k + |Delimiter|..];
      JoinSpans(rest);
      FindFirst(s, Delimiter);
      CutAt(s, Delimiter, k);
      JoinCons(s[..k], Spans(rest), Delimiter);
  }

  /** The part of s before the first occurrence of pat holds no pat. */
  lemma PrefixFree(s: string, pat: string, k: nat)
    requires k <= |s| && |pat| > 0
    requires forall j :: 0 <= j < k ==> !OccursAt(s, pat, j)
    ensures Free(s[..k], pat)
  {
    forall j | OccursAt(s[..k], pat, j) ensures false {
      assert s[..k][j..j + |pat|] == s[j..j + |pat|];
      assert OccursAt(s, pat, j);
    }
  }

  /** No span holds the delimiter. */
  lemma {:induction false} SpansFree(s: string)
    ensures forall i :: 0 <= i < |Spans(s)| ==> Free(Spans(s)[i], Delimiter)
    decreases |s|
  {
    FindFirst(s, Delimiter);
    match Find(s, Delimiter)
    case None =>
    case Some(k) =>
      var rest := s[k + |Delimiter|..];
      SpansFree(rest);
      PrefixFree(s, Delimiter, k);
      assert Spans(s) == [s[..k]] + Spans(rest);
  }

  /** NonEmpty keeps exactly the non-empty parts, and keeps every part of
      a sequence that has no empty part. */
  lemma {:induction false} NonEmptyParts(parts: seq<string>)
    ensures forall x :: x in NonEmpty(parts) <==> x in parts && x != []
    ensures (forall i :: 0 <= i < |parts| ==> parts[i] != []) ==> NonEmpty(parts) == parts
  {
    if |parts| > 0 {
      NonEmptyParts(parts[1..]);
      assert parts == [parts[0]] + parts[1..];
    }
  }

  /** The test cases of a script: at most MaxTestCases of them, none
      empty, none holding the delimiter. */
  lemma TestCasesWellFormed(script: string)
    ensures |TestCases(script)| <= MaxTestCases
    ensures forall i :: 0 <= i < |TestCases(script)| ==>
      TestCases(script)[i] != [] && Free(TestCases(script)[i], Delimiter)
  {
    var cases := NonEmpty(Spans(script));
    NonEmptyParts(Spans(script));
    SpansFree(script);
    forall i | 0 <= i < |TestCases(script)|
      ensures TestCases(script)[i] != [] && Free(TestCases(script)[i], Delimiter)
    {
      assert TestCases(script)[i] in cases;
    }
  }

  /** When every span between delimiters is non-empty and there are at
      most MaxTestCases of them, the test cases are exactly the spans, and
      joining them with the delimiter gives back the script. */
  lemma TestCasesRoundTrip(script: string)
    requires forall i :: 0 <= i < |Spans(script)| ==> Spans(script)[i] != []
    requires |Spans(script)| <= MaxTestCases
    ensures TestCases(script) == Spans(script)
    ensures Join(TestCases(script), Delimiter) == script
  {
    NonEmptyParts(Spans(script));
    JoinSpans(script);
  }

  /** A script holds the delimiter exactly when the search cuts it into
      more than one span. */
  lemma ContainsIffCut(script: string)
    ensures ContainsTestCases(script) <==> |Spans(script)| > 1
  {
    match Find(script, Delimiter)
    case None =>
    case Some(k) =>
      assert |Spans(script[k + |Delimiter|..])| >= 1;
  }
}
