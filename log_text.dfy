/**
 Text handling of the log replay (src/replay_log.rs): `str::trim`,
 `str::contains`, the timestamp pattern `\d{4}-\d{2}-\d{2} \d{2}:\d{2}:\d{2}`
 with its non-overlapping leftmost scan (`find_iter`), and `split_by_date`,
 which cuts the log at the start of every timestamp.

 Strings are sequences of characters and positions count characters; the
 source's byte offsets always fall on character boundaries, so the cuts are
 the same. `\d` is taken to be an ASCII digit.
 */
module LogText {

  /** `char::is_whitespace`: the characters with the Unicode White_Space property. */
  predicate IsWhitespace(c: char) {
    || ('\t' <= c <= '\r')
    || c == ' '
    || c == '\U{85}' || c == '\U{A0}' || c == '\U{1680}'
    || ('\U{2000}' <= c <= '\U{200A}')
    || c == '\U{2028}' || c == '\U{2029}' || c == '\U{202F}' || c == '\U{205F}' || c == '\U{3000}'
  }

  /** The suffix of `s` left after dropping leading whitespace. */
  function TrimStart(s: string): (r: string)
    ensures |r| <= |s| && r == s[|s| - |r|..]
    ensures r == [] || !IsWhitespace(r[0])
    ensures forall i :: 0 <= i < |s| - |r| ==> IsWhitespace(s[i])
    decreases |s|
  {
    if s != [] && IsWhitespace(s[0]) then TrimStart(s[1..]) else s
  }

  /** The prefix of `s` left after dropping trailing whitespace. */
  function TrimEnd(s: string): (r: string)
    ensures |r| <= |s| && r == s[..|r|]
    ensures r == [] || !IsWhitespace(r[|r| - 1])
    ensures forall i :: |r| <= i < |s| ==> IsWhitespace(s[i])
    decreases |s|
  {
    if s != [] && IsWhitespace(s[|s| - 1]) then TrimEnd(s[..|s| - 1]) else s
  }

  /** `str::trim`: the result neither starts nor ends with whitespace, and a
      string without whitespace is left as it is. */
  function Trim(s: string): (r: string)
    ensures |r| <= |s|
    ensures r == [] || (!IsWhitespace(r[0]) && !IsWhitespace(r[|r| - 1]))
    ensures (forall i :: 0 <= i < |s| ==> !IsWhitespace(s[i])) ==> r == s
  {
    TrimEnd(TrimStart(s))
  }

  /** `Trim` removes exactly a leading and a trailing stretch of whitespace,
      and keeps what lies between them as it is; the leading stretch is the
      one `TrimStart` drops. */
  lemma TrimIsSlice(s: string)
    ensures var a := |s| - |TrimStart(s)|;
            && a + |Trim(s)| <= |s| && Trim(s) == s[a..a + |Trim(s)|]
            && (forall i :: 0 <= i < a ==> IsWhitespace(s[i]))
            && (forall i :: a + |Trim(s)| <= i < |s| ==> IsWhitespace(s[i]))
  {
    var t := TrimStart(s);
    var r := TrimEnd(t);
    PrefixOfSuffix(s, |s| - |t|, t, r);
  }

  /** A prefix `r` of the suffix `t` of `s` from `a` is the slice of `s`
      from `a`, and `t` lines up with `s` from `a` on. */
  lemma PrefixOfSuffix(s: string, a: nat, t: string, r: string)
    requires a <= |s| && t == s[a..] && |r| <= |t| && r == t[..|r|]
    ensures a + |r| <= |s| && r == s[a..a + |r|]
    ensures forall i :: a <= i < |s| ==> s[i] == t[i - a]
  {
  }

  /** Trimming a string that starts with `prefix` keeps `prefix` when its
      first and last characters are not whitespace. */
  lemma TrimKeepsPrefix(s: string, prefix: string)
    requires |prefix| > 0 && |prefix| <= |s| && s[..|prefix|] == prefix
    requires !IsWhitespace(prefix[0]) && !IsWhitespace(prefix[|prefix| - 1])
    ensures |prefix| <= |Trim(s)| && Trim(s)[..|prefix|] == prefix
  {
    assert TrimStart(s) == s;
  }

  /** `pattern` occurs in `s` starting at position `i`. */
  predicate OccursAt(s: string, pattern: string, i: nat) {
    i + |pattern| <= |s| && forall k :: 0 <= k < |pattern| ==> s[i + k] == pattern[k]
  }

  lemma OccursShifted(s: string, pattern: string, i: nat)
    requires s != []
    ensures OccursAt(s, pattern, i + 1) <==> OccursAt(s[1..], pattern, i)
  {
    if i + 1 + |pattern| <= |s| {
      assert s[i + 1..i + 1 + |pattern|] == s[1..][i..i + |pattern|];
    }
  }

  /** `str::contains`. */
  function Contains(s: string, pattern: string): (r: bool)
    ensures r <==> exists i: nat :: OccursAt(s, pattern, i)
    decreases |s|
  {
    if OccursAt(s, pattern, 0) then
      true
    else if s == [] then
      assert forall i: nat :: !OccursAt(s, pattern, i);
      false
    else
      var r := Contains(s[1..], pattern);
      assert forall i: nat :: OccursAt(s, pattern, i + 1) <==> OccursAt(s[1..], pattern, i) by {
        forall i: nat ensures OccursAt(s, pattern, i + 1) <==> OccursAt(s[1..], pattern, i) {
          OccursShifted(s, pattern, i);
        }
      }
      assert forall i: nat :: OccursAt(s, pattern, i) ==> i == 0 || OccursAt(s[1..], pattern, i - 1);
      r
  }

  predicate IsAsciiDigit(c: char) {
    '0' <= c <= '9'
  }

  const TIMESTAMP_LEN: nat := 19

  /** Position `i` of the pattern `\d{4}-\d{2}-\d{2} \d{2}:\d{2}:\d{2}`. */
  predicate FitsTimestampAt(c: char, i: nat) {
    if i == 4 || i == 7 then c == '-'
    else if i == 10 then c == ' '
    else if i == 13 || i == 16 then c == ':'
    else IsAsciiDigit(c)
  }

  predicate IsTimestamp(t: string) {
    |t| == TIMESTAMP_LEN && forall i :: 0 <= i < TIMESTAMP_LEN ==> FitsTimestampAt(t[i], i)
  }

  /** The timestamp pattern matches `s` at position `p`; a match lies within
      `s` and starts and ends with a digit, so trimming never cuts into it. */
  predicate TimestampAt(s: string, p: nat): (b: bool)
    ensures b ==> p + TIMESTAMP_LEN <= |s|
    ensures b ==> IsAsciiDigit(s[p]) && IsAsciiDigit(s[p + TIMESTAMP_LEN - 1])
  {
    p + TIMESTAMP_LEN <= |s| && IsTimestamp(s[p..p + TIMESTAMP_LEN])
  }

  /** No match of the timestamp pattern starts in `[lo, hi)`. */
  ghost predicate NoMatchBetween(s: string, lo: nat, hi: nat) {
    forall q :: lo <= q < hi ==> !TimestampAt(s, q)
  }

  /** `r` lists exactly the match starts a left-to-right scan from `from`
      finds: each is a match, they do not overlap, and no match starts
      before the first one or in a gap after one. */
  ghost predicate ScanResult(s: string, from: nat, r: seq<nat>) {
    && (forall j :: 0 <= j < |r| ==> from <= r[j] && TimestampAt(s, r[j]))
    && (forall i, j :: 0 <= i < j < |r| ==> r[i] + TIMESTAMP_LEN <= r[j])
    && NoMatchBetween(s, from, if r == [] then |s| else r[0])
    && (forall j :: 0 <= j < |r| ==>
          NoMatchBetween(s, r[j] + TIMESTAMP_LEN, if j + 1 < |r| then r[j + 1] else |s|))
  }

  lemma ScanEnd(s: string, from: nat)
    requires from + TIMESTAMP_LEN > |s|
    ensures ScanResult(s, from, [])
  {
  }

  lemma ScanMatch(s: string, from: nat, rest: seq<nat>)
    requires TimestampAt(s, from) && ScanResult(s, from + TIMESTAMP_LEN, rest)
    ensures ScanResult(s, from, [from] + rest)
  {
    var r := [from] + rest;
    assert forall j :: 1 <= j < |r| ==> r[j] == rest[j - 1];
    assert NoMatchBetween(s, r[0] + TIMESTAMP_LEN, if 1 < |r| then r[1] else |s|);
    forall j | 1 <= j < |r|
      ensures NoMatchBetween(s, r[j] + TIMESTAMP_LEN, if j + 1 < |r| then r[j + 1] else |s|)
    {
      assert NoMatchBetween(s, rest[j - 1] + TIMESTAMP_LEN, if j < |rest| then rest[j] else |s|);
    }
  }

  lemma ScanSkip(s: string, from: nat, r: seq<nat>)
    requires !TimestampAt(s, from) && ScanResult(s, from + 1, r)
    ensures ScanResult(s, from, r)
  {
  }

  /** `find_iter` from position `from`: the leftmost match, then the
      leftmost match at or after its end, and so on. */
  function FindIter(s: string, from: nat): (r: seq<nat>)
    ensures ScanResult(s, from, r)
    decreases |s| - from
  {
    if from + TIMESTAMP_LEN > |s| then
      ScanEnd(s, from);
      []
    else if TimestampAt(s, from) then
      var rest := FindIter(s, from + TIMESTAMP_LEN);
      ScanMatch(s, from, rest);
      [from] + rest
    else
      var r := FindIter(s, from + 1);
      ScanSkip(s, from, r);
      r
  }

  /** Cut positions lie between `start` and the end of `s`, in order. */
  ghost predicate ValidCuts(s: string, start: nat, cuts: seq<nat>) {
    && start <= |s|
    && (forall j :: 0 <= j < |cuts| ==> start <= cuts[j] <= |s|)
    && (forall i, j :: 0 <= i < j < |cuts| ==> cuts[i] <= cuts[j])
  }

  lemma ValidCutsTail(s: string, start: nat, cuts: seq<nat>)
    requires ValidCuts(s, start, cuts) && cuts != []
    ensures ValidCuts(s, cuts[0], cuts[1..])
  {
    assert forall j :: 0 <= j < |cuts| - 1 ==> cuts[1..][j] == cuts[j + 1];
  }

  /** The pieces of `s[start..]` cut at `cuts`, empty pieces left out. */
  function Segments(s: string, start: nat, cuts: seq<nat>): (r: seq<string>)
    requires ValidCuts(s, start, cuts)
    ensures |r| <= |cuts| + 1
    ensures forall i :: 0 <= i < |r| ==> |r[i]| > 0
    decreases |cuts|
  {
    if cuts == [] then (if start < |s| then [s[start..]] else [])
    else (if start != cuts[0] then [s[start..cuts[0]]] else []) + Segments(s, cuts[0], cuts[1..])
  }

  /** The untrimmed pieces `split_by_date` cuts the log into. */
  function Pieces(log: string): (r: seq<string>)
    ensures |r| <= |FindIter(log, 0)| + 1
    ensures forall i :: 0 <= i < |r| ==> |r[i]| > 0
  {
    Segments(log, 0, FindIter(log, 0))
  }

  function TrimAll(pieces: seq<string>): (r: seq<string>)
    ensures |r| == |pieces|
    ensures forall i :: 0 <= i < |pieces| ==> r[i] == Trim(pieces[i])
    decreases |pieces|
  {
    if pieces == [] then [] else [Trim(pieces[0])] + TrimAll(pieces[1..])
  }

  lemma {:induction false} TrimAllAppend(a: seq<string>, b: seq<string>)
    ensures TrimAll(a + b) == TrimAll(a) + TrimAll(b)
    decreases |a|
  {
    if a == [] {
      assert a + b == b;
    } else {
      assert (a + b)[0] == a[0];
      assert (a + b)[1..] == a[1..] + b;
      TrimAllAppend(a[1..], b);
    }
  }

  /** `split_by_date`: walk the timestamp matches, emitting the trimmed text
      from the previous cut to each match start (when not empty), then the
      trimmed rest of the log after the last cut. */
  method SplitByDate(log: string) returns (entries: seq<string>)
    ensures entries == TrimAll(Pieces(log))
  {
    var matches := FindIter(log, 0);
    entries := [];
    var start: nat := 0;
    MatchesAreStrictCuts(log);
    assert matches[0..] == matches;
    for i := 0 to |matches|
      invariant ValidCuts(log, start, matches[i..])
      invariant entries + TrimAll(Segments(log, start, matches[i..])) == TrimAll(Pieces(log))
    {
      var end := matches[i];
      SplitEntriesStep(log, start, matches[i..], entries);
      assert matches[i..][1..] == matches[i + 1..];
      if start != end {
        entries := entries + [Trim(log[start..end])];
      }
      start := end;
    }
    assert matches[|matches|..] == [];
    SplitEntriesTail(log, start, entries);
    if start < |log| {
      entries := entries + [Trim(log[start..])];
    }
  }

  lemma AppendAssoc(a: seq<string>, b: seq<string>, c: seq<string>)
    ensures a + (b + c) == (a + b) + c
  {
  }

  /** `Segments` with no cut left, after trimming. */
  lemma SplitTail(s: string, start: nat)
    requires start <= |s|
    ensures TrimAll(Segments(s, start, [])) == if start < |s| then [Trim(s[start..])] else []
  {
  }

  /** Unfolds one cut of `Segments`, after trimming. */
  lemma SplitStep(s: string, start: nat, cuts: seq<nat>)
    requires ValidCuts(s, start, cuts) && cuts != []
    ensures ValidCuts(s, cuts[0], cuts[1..])
    ensures TrimAll(Segments(s, start, cuts)) ==
              (if start != cuts[0] then [Trim(s[start..cuts[0]])] else []) + TrimAll(Segments(s, cuts[0], cuts[1..]))
  {
    var head := if start != cuts[0] then [s[start..cuts[0]]] else [];
    TrimAllAppend(head, Segments(s, cuts[0], cuts[1..]));
  }

  /** One turn of the loop in `SplitByDate`: the entry before the next
      cut, if non-empty, moves from the pending pieces to the output. */
  lemma SplitEntriesStep(s: string, start: nat, cuts: seq<nat>, entries: seq<string>)
    requires ValidCuts(s, start, cuts) && cuts != []
    ensures ValidCuts(s, cuts[0], cuts[1..])
    ensures (if start != cuts[0] then entries + [Trim(s[start..cuts[0]])] else entries)
              + TrimAll(Segments(s, cuts[0], cuts[1..]))
            == entries + TrimAll(Segments(s, start, cuts))
  {
    SplitStep(s, start, cuts);
    var rest := TrimAll(Segments(s, cuts[0], cuts[1..]));
    if start != cuts[0] {
      var head := [Trim(s[start..cuts[0]])];
      assert TrimAll(Segments(s, start, cuts)) == head + rest;
      AppendAssoc(entries, head, rest);
    } else {
      assert TrimAll(Segments(s, start, cuts)) == [] + rest;
      assert [] + rest == rest;
    }
  }

  /** The end of `SplitByDate`: the text after the last cut, if any. */
  lemma SplitEntriesTail(s: string, start: nat, entries: seq<string>)
    requires start <= |s|
    ensures (if start < |s| then entries + [Trim(s[start..])] else entries)
            == entries + TrimAll(Segments(s, start, []))
  {
    SplitTail(s, start);
  }

  function Concat(pieces: seq<string>): string
    decreases |pieces|
  {
    if pieces == [] then [] else pieces[0] + Concat(pieces[1..])
  }

  lemma {:induction false} ConcatAppend(a: seq<string>, b: seq<string>)
    ensures Concat(a + b) == Concat(a) + Concat(b)
    decreases |a|
  {
    if a == [] {
      assert a + b == b;
    } else {
      assert (a + b)[0] == a[0];
      assert (a + b)[1..] == a[1..] + b;
      ConcatAppend(a[1..], b);
    }
  }

  lemma {:induction false} SegmentsConcat(s: string, start: nat, cuts: seq<nat>)
    requires ValidCuts(s, start, cuts)
    ensures Concat(Segments(s, start, cuts)) == s[start..]
    decreases |cuts|
  {
    if cuts == [] {
      if start < |s| {
        assert Concat([s[start..]]) == s[start..] + Concat([]);
      }
    } else {
      var head := if start != cuts[0] then [s[start..cuts[0]]] else [];
      ValidCutsTail(s, start, cuts);
      var rest := Segments(s, cuts[0], cuts[1..]);
      assert Segments(s, start, cuts) == head + rest;
      SegmentsConcat(s, cuts[0], cuts[1..]);
      ConcatAppend(head, rest);
      if start != cuts[0] {
        assert Concat(head) == s[start..cuts[0]] + Concat([]);
      }
      assert s[start..] == s[start..cuts[0]] + s[cuts[0]..];
    }
  }

  /** Before trimming, the pieces put back together in order are the log. */
  lemma PiecesConcat(log: string)
    ensures Concat(Pieces(log)) == log
  {
    SegmentsConcat(log, 0, FindIter(log, 0));
  }

  /** Cuts that strictly increase and each leave at least one character. */
  ghost predicate StrictCuts(s: string, start: nat, cuts: seq<nat>) {
    && ValidCuts(s, start, cuts)
    && (forall j :: 0 <= j < |cuts| ==> cuts[j] < |s|)
    && (forall i, j :: 0 <= i < j < |cuts| ==> cuts[i] < cuts[j])
  }

  lemma {:induction false} SegmentsCount(s: string, start: nat, cuts: seq<nat>)
    requires StrictCuts(s, start, cuts)
    ensures |Segments(s, start, cuts)| ==
              |cuts| + (if start < |s| && (cuts == [] || cuts[0] != start) then 1 else 0)
    decreases |cuts|
  {
    if cuts != [] {
      SegmentsCount(s, cuts[0], cuts[1..]);
    }
  }

  lemma MatchesAreStrictCuts(log: string)
    ensures StrictCuts(log, 0, FindIter(log, 0))
  {
  }

  /** One entry per timestamp match, plus one for the text before the first
      match when the log is not empty and does not start with a timestamp. */
  lemma EntryCount(log: string)
    ensures |TrimAll(Pieces(log))| == |FindIter(log, 0)| + Lead(log)
  {
    var m := FindIter(log, 0);
    MatchesAreStrictCuts(log);
    SegmentsCount(log, 0, m);
    assert TimestampAt(log, 0) ==> m != [] && m[0] == 0;
  }

  /** The piece that starts at cut `j` runs to the next cut (or the end). */
  lemma {:induction false} SegmentAtCut(s: string, start: nat, cuts: seq<nat>, j: nat)
    requires StrictCuts(s, start, cuts) && j < |cuts|
    ensures var lead := if start != cuts[0] then 1 else 0;
            && j + lead < |Segments(s, start, cuts)|
            && Segments(s, start, cuts)[j + lead] == s[cuts[j]..if j + 1 < |cuts| then cuts[j + 1] else |s|]
    decreases |cuts|
  {
    var head := if start != cuts[0] then [s[start..cuts[0]]] else [];
    var rest := Segments(s, cuts[0], cuts[1..]);
    assert Segments(s, start, cuts) == head + rest;
    SegmentsCount(s, cuts[0], cuts[1..]);
    if j > 0 {
      SegmentAtCut(s, cuts[0], cuts[1..], j - 1);
    } else if cuts[1..] != [] {
      assert rest[0] == s[cuts[0]..cuts[1]];
    }
  }

  /** 1 when the log has text before its first timestamp match, else 0. */
  function Lead(log: string): nat {
    if log != [] && !TimestampAt(log, 0) then 1 else 0
  }

  /** Before trimming, the piece that begins at match `j` starts with the
      19 characters of that match. */
  lemma PieceAtMatch(log: string, j: nat)
    requires j < |FindIter(log, 0)|
    ensures j + Lead(log) < |Pieces(log)|
    ensures var m := FindIter(log, 0)[j];
            TIMESTAMP_LEN <= |Pieces(log)[j + Lead(log)]| &&
            Pieces(log)[j + Lead(log)][..TIMESTAMP_LEN] == log[m..m + TIMESTAMP_LEN]
  {
    var cuts := FindIter(log, 0);
    MatchesAreStrictCuts(log);
    SegmentAtCut(log, 0, cuts, j);
    assert TimestampAt(log, cuts[0]);
    assert Lead(log) == if 0 != cuts[0] then 1 else 0;
    var m := cuts[j];
    var end := if j + 1 < |cuts| then cuts[j + 1] else |log|;
    assert TimestampAt(log, m) && m + TIMESTAMP_LEN <= end;
    SlicePrefix(log, m, end, TIMESTAMP_LEN);
  }

  lemma SlicePrefix(s: string, lo: nat, hi: nat, n: nat)
    requires lo + n <= hi <= |s|
    ensures s[lo..hi][..n] == s[lo..lo + n]
  {
  }

  /** Every entry that begins at a match starts with the 19-character
      timestamp of that match, also after trimming. */
  lemma EntryStartsWithTimestamp(log: string, j: nat)
    requires j < |FindIter(log, 0)|
    ensures j + Lead(log) < |TrimAll(Pieces(log))|
    ensures var entry := TrimAll(Pieces(log))[j + Lead(log)];
            var m := FindIter(log, 0)[j];
            TIMESTAMP_LEN <= |entry| && entry[..TIMESTAMP_LEN] == log[m..m + TIMESTAMP_LEN]
    ensures IsTimestamp(TrimAll(Pieces(log))[j + Lead(log)][..TIMESTAMP_LEN])
  {
    PieceAtMatch(log, j);
    var piece := Pieces(log)[j + Lead(log)];
    var m := FindIter(log, 0)[j];
    var stamp := log[m..m + TIMESTAMP_LEN];
    assert FitsTimestampAt(stamp[0], 0) && FitsTimestampAt(stamp[18], 18);
    TrimKeepsPrefix(piece, stamp);
  }

  /** An empty log yields no entries. */
  lemma EmptyLogHasNoEntries()
    ensures TrimAll(Pieces("")) == []
  {
  }

  /** A non-empty log with no timestamp in it yields exactly one entry: the
      whole log, trimmed. */
  lemma NoTimestampSingleEntry(log: string)
    requires log != []
    requires forall p :: 0 <= p <= |log| ==> !TimestampAt(log, p)
    ensures TrimAll(Pieces(log)) == [Trim(log)]
  {
    assert FindIter(log, 0) == [];
    assert log[0..] == log;
  }
}
