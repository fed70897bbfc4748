/**
 Rebuilding the registry from the server's log (src/replay_log.rs): the log
 file's lines are joined, cut into entries at every timestamp, and every
 entry that announces a created collection is parsed and replayed with
 `create_collection` on a fresh registry. Entries that announce inserted
 embeddings are recognised and skipped.

 The file is given as a value (`LogFile`): whether it opened, and each line
 read or the read error met. The pattern of a creation entry,
 `Created new collection with name: '([^']+)', dimension: '(\d+)', distance: '([^']+)'`,
 is matched exactly: each group is followed by a quote, which the group cannot
 contain, so a match at a given position is unique and its groups are maximal
 runs.
 */
module ReplayLog {
  import opened Model
  import opened Registry
  import opened Db
  import opened LogText

  const CREATED_MARKER: string := "Created new collection"
  const INSERTED_MARKER: string := "successfully inserted into collection"
  const NAME_PREFIX: string := CREATED_MARKER + " with name: '"
  const DIMENSION_INFIX: string := "', dimension: '"
  const DISTANCE_INFIX: string := "', distance: '"
  const CLOSING_QUOTE: string := "'"

  /** The two character classes of the pattern: `[^']` and `\d`. */
  datatype CharClass = NotQuote | Digit

  predicate InClass(c: char, cls: CharClass) {
    match cls
    case NotQuote => c != '\''
    case Digit => IsAsciiDigit(c)
  }

  predicate AllIn(t: string, cls: CharClass) {
    forall i :: 0 <= i < |t| ==> InClass(t[i], cls)
  }

  /** The length of the longest run of `cls` characters starting at `from`. */
  function Run(s: string, from: nat, cls: CharClass): (n: nat)
    requires from <= |s|
    ensures from + n <= |s|
    decreases |s| - from
  {
    if from < |s| && InClass(s[from], cls) then 1 + Run(s, from + 1, cls) else 0
  }

  /** The run is made of class characters and ends at the end of `s` or at
      a character outside the class. */
  lemma {:induction false} RunSpec(s: string, from: nat, cls: CharClass)
    requires from <= |s|
    ensures forall i :: from <= i < from + Run(s, from, cls) ==> InClass(s[i], cls)
    ensures from + Run(s, from, cls) == |s| || !InClass(s[from + Run(s, from, cls)], cls)
    decreases |s| - from
  {
    if from < |s| && InClass(s[from], cls) {
      RunSpec(s, from + 1, cls);
    }
  }

  /** A run of `k` class characters ended by the end of `s` or by a
      character outside the class is the longest run. */
  lemma {:induction false} RunExact(s: string, from: nat, cls: CharClass, k: nat)
    requires from + k <= |s|
    requires forall i :: from <= i < from + k ==> InClass(s[i], cls)
    requires from + k == |s| || !InClass(s[from + k], cls)
    ensures Run(s, from, cls) == k
    decreases k
  {
    if k > 0 {
      RunExact(s, from + 1, cls, k - 1);
    }
  }

  /** The three groups of a creation entry: name, dimension digits, distance word. */
  datatype Captures = Captures(name: string, digits: string, word: string)

  /** The groups the pattern admits. */
  predicate ValidCaptures(c: Captures) {
    && |c.name| > 0 && AllIn(c.name, NotQuote)
    && |c.digits| > 0 && AllIn(c.digits, Digit)
    && |c.word| > 0 && AllIn(c.word, NotQuote)
  }

  /** One group of the pattern at `at`: a non-empty maximal run of `cls`
      followed by the literal `follow`; gives the group and the position
      after `follow`. */
  function MatchGroup(s: string, at: nat, cls: CharClass, follow: string): (r: Option<(string, nat)>)
    requires at <= |s|
    ensures r.Some? ==> r.value.1 == at + |r.value.0| + |follow| <= |s|
  {
    var n := Run(s, at, cls);
    if n == 0 || !OccursAt(s, follow, at + n) then None
    else Some((s[at..at + n], at + n + |follow|))
  }

  /** Text occurring at `p` followed by text occurring right after it. */
  lemma OccursJoin(s: string, x: string, y: string, p: nat)
    requires OccursAt(s, x, p) && OccursAt(s, y, p + |x|)
    ensures OccursAt(s, x + y, p)
  {
    assert s[p..p + |x + y|] == s[p..p + |x|] + s[p + |x|..p + |x| + |y|];
  }

  /** The two halves of a text occurring at `p`. */
  lemma OccursParts(s: string, x: string, y: string, p: nat)
    requires OccursAt(s, x + y, p)
    ensures OccursAt(s, x, p) && OccursAt(s, y, p + |x|)
  {
    assert s[p..p + |x|] == (x + y)[..|x|];
    assert s[p + |x|..p + |x| + |y|] == (x + y)[|x|..];
  }

  /** A group matched at `at` is non-empty, in its class, and followed by
      `follow`. */
  lemma GroupSound(s: string, at: nat, cls: CharClass, follow: string)
    requires at <= |s|
    requires MatchGroup(s, at, cls, follow).Some?
    ensures var g := MatchGroup(s, at, cls, follow).value.0;
            |g| > 0 && AllIn(g, cls) && OccursAt(s, g + follow, at)
  {
    var n := Run(s, at, cls);
    RunSpec(s, at, cls);
    var g := s[at..at + n];
    forall i | 0 <= i < |g| ensures InClass(g[i], cls) {
      assert g[i] == s[at + i];
    }
    assert OccursAt(s, g, at);
    OccursJoin(s, g, follow, at);
  }

  /** Conversely, a non-empty text of the class followed by `follow` at
      `at` is the group matched there, provided `follow` starts with a
      character the class excludes. */
  lemma GroupComplete(s: string, at: nat, cls: CharClass, follow: string, g: string)
    requires at <= |s|
    requires |follow| > 0 && !InClass(follow[0], cls)
    requires |g| > 0 && AllIn(g, cls) && OccursAt(s, g + follow, at)
    ensures MatchGroup(s, at, cls, follow).Some?
    ensures MatchGroup(s, at, cls, follow).value.0 == g
    ensures MatchGroup(s, at, cls, follow).value.1 == at + |g| + |follow|
  {
    OccursParts(s, g, follow, at);
    forall i | at <= i < at + |g| ensures InClass(s[i], cls) {
      assert s[i] == g[i - at];
    }
    assert s[at + |g|] == follow[0];
    RunExact(s, at, cls, |g|);
  }

  /** The pattern, with its literals as parameters: `pre`, then a name group
      ended by `mid1`, a digit group ended by `mid2` and a word group ended
      by `close`. */
  function MatchShape(s: string, p: nat, pre: string, mid1: string, mid2: string, close: string): Option<Captures> {
    if !OccursAt(s, pre, p) then None
    else
      match MatchGroup(s, p + |pre|, NotQuote, mid1)
      case None => None
      case Some(g1) =>
        match MatchGroup(s, g1.1, Digit, mid2)
        case None => None
        case Some(g2) =>
          match MatchGroup(s, g2.1, NotQuote, close)
          case None => None
          case Some(g3) => Some(Captures(g1.0, g2.0, g3.0))
  }

  /** The text the pattern matches for groups `c`. */
  function ShapeText(pre: string, mid1: string, mid2: string, close: string, c: Captures): string {
    pre + ((c.name + mid1) + ((c.digits + mid2) + (c.word + close)))
  }

  /** Each literal after a group starts with a quote, which no group of the
      pattern may contain before it. */
  predicate QuoteLed(mid1: string, mid2: string, close: string) {
    |mid1| > 0 && mid1[0] == '\'' && |mid2| > 0 && mid2[0] == '\'' && |close| > 0 && close[0] == '\''
  }

  /** The pieces of the shape text for groups `c`, each at its place after `p`. */
  predicate PartsAt(s: string, p: nat, pre: string, mid1: string, mid2: string, close: string, c: Captures) {
    var at := p + |pre|;
    var at2 := at + |c.name| + |mid1|;
    var at3 := at2 + |c.digits| + |mid2|;
    && OccursAt(s, pre, p)
    && OccursAt(s, c.name + mid1, at)
    && OccursAt(s, c.digits + mid2, at2)
    && OccursAt(s, c.word + close, at3)
  }

  /** The shape text occurring at `p` puts its pieces one after another. */
  lemma PartsOfShape(s: string, p: nat, pre: string, mid1: string, mid2: string, close: string, c: Captures)
    requires OccursAt(s, ShapeText(pre, mid1, mid2, close, c), p)
    ensures PartsAt(s, p, pre, mid1, mid2, close, c)
  {
    var at := p + |pre|;
    var last := (c.digits + mid2) + (c.word + close);
    OccursParts(s, pre, (c.name + mid1) + last, p);
    OccursParts(s, c.name + mid1, last, at);
    OccursParts(s, c.digits + mid2, c.word + close, at + |c.name| + |mid1|);
  }

  /** Conversely, the pieces one after another spell the shape text. */
  lemma ShapeOfParts(s: string, p: nat, pre: string, mid1: string, mid2: string, close: string, c: Captures)
    requires PartsAt(s, p, pre, mid1, mid2, close, c)
    ensures OccursAt(s, ShapeText(pre, mid1, mid2, close, c), p)
  {
    var at := p + |pre|;
    var last := (c.digits + mid2) + (c.word + close);
    OccursJoin(s, c.digits + mid2, c.word + close, at + |c.name| + |mid1|);
    OccursJoin(s, c.name + mid1, last, at);
    OccursJoin(s, pre, (c.name + mid1) + last, p);
  }

  /** A match of the shape is spelled by its admissible groups. */
  lemma ShapeSound(s: string, p: nat, pre: string, mid1: string, mid2: string, close: string)
    requires MatchShape(s, p, pre, mid1, mid2, close).Some?
    ensures var c := MatchShape(s, p, pre, mid1, mid2, close).value;
            ValidCaptures(c) && PartsAt(s, p, pre, mid1, mid2, close, c)
  {
    var at := p + |pre|;
    var g1 := MatchGroup(s, at, NotQuote, mid1).value;
    var g2 := MatchGroup(s, g1.1, Digit, mid2).value;
    GroupSound(s, at, NotQuote, mid1);
    GroupSound(s, g1.1, Digit, mid2);
    GroupSound(s, g2.1, NotQuote, close);
  }

  /** Admissible groups whose pieces occur after `p` are what the shape
      matches there: the digit and word groups. */
  lemma ShapeComplete(s: string, p: nat, pre: string, mid1: string, mid2: string, close: string, c: Captures)
    requires QuoteLed(mid1, mid2, close)
    requires ValidCaptures(c) && PartsAt(s, p, pre, mid1, mid2, close, c)
    ensures MatchShape(s, p, pre, mid1, mid2, close).Some?
    ensures var v := MatchShape(s, p, pre, mid1, mid2, close).value;
            v.digits == c.digits && v.word == c.word
  {
    var at := p + |pre|;
    var at2 := at + |c.name| + |mid1|;
    GroupComplete(s, at, NotQuote, mid1, c.name);
    GroupComplete(s, at2, Digit, mid2, c.digits);
    GroupComplete(s, at2 + |c.digits| + |mid2|, NotQuote, close, c.word);
  }

  /** The name group of a complete match. */
  lemma ShapeCompleteName(s: string, p: nat, pre: string, mid1: string, mid2: string, close: string, c: Captures)
    requires QuoteLed(mid1, mid2, close)
    requires ValidCaptures(c) && PartsAt(s, p, pre, mid1, mid2, close, c)
    requires MatchShape(s, p, pre, mid1, mid2, close).Some?
    ensures MatchShape(s, p, pre, mid1, mid2, close).value.name == c.name
  {
    GroupComplete(s, p + |pre|, NotQuote, mid1, c.name);
  }

  function CreateLineText(c: Captures): string {
    ShapeText(NAME_PREFIX, DIMENSION_INFIX, DISTANCE_INFIX, CLOSING_QUOTE, c)
  }

  /** `Regex::captures` at position `p` of `s`: the groups of the match
      that starts there, if any (characterized by `MatchCreateAtIff`). */
  function MatchCreateAt(s: string, p: nat): Option<Captures> {
    MatchShape(s, p, NAME_PREFIX, DIMENSION_INFIX, DISTANCE_INFIX, CLOSING_QUOTE)
  }

  /** The pattern matches at `p` with groups `c` exactly when the groups are
      admissible and their text occurs at `p`. */
  lemma MatchCreateAtIff(s: string, p: nat, c: Captures)
    ensures MatchCreateAt(s, p) == Some(c) <==> ValidCaptures(c) && OccursAt(s, CreateLineText(c), p)
  {
    if MatchCreateAt(s, p).Some? {
      ShapeSound(s, p, NAME_PREFIX, DIMENSION_INFIX, DISTANCE_INFIX, CLOSING_QUOTE);
      ShapeOfParts(s, p, NAME_PREFIX, DIMENSION_INFIX, DISTANCE_INFIX, CLOSING_QUOTE, MatchCreateAt(s, p).value);
    }
    if ValidCaptures(c) && OccursAt(s, CreateLineText(c), p) {
      assert QuoteLed(DIMENSION_INFIX, DISTANCE_INFIX, CLOSING_QUOTE);
      PartsOfShape(s, p, NAME_PREFIX, DIMENSION_INFIX, DISTANCE_INFIX, CLOSING_QUOTE, c);
      ShapeComplete(s, p, NAME_PREFIX, DIMENSION_INFIX, DISTANCE_INFIX, CLOSING_QUOTE, c);
      ShapeCompleteName(s, p, NAME_PREFIX, DIMENSION_INFIX, DISTANCE_INFIX, CLOSING_QUOTE, c);
      var v := MatchCreateAt(s, p).value;
      assert v == Captures(v.name, v.digits, v.word);
    }
  }

  /** Where the pattern first matches, and the groups it captured. */
  datatype Found = Found(at: nat, caps: Captures)

  /** No match starts after the end of the text. */
  lemma NoMatchPastEnd(s: string)
    ensures forall q: nat :: |s| < q ==> MatchCreateAt(s, q).None?
  {
    forall q: nat | |s| < q ensures MatchCreateAt(s, q).None? {
      assert !OccursAt(s, NAME_PREFIX, q);
    }
  }

  /** `Regex::captures` from position `from`: the leftmost match. */
  function FindCreate(s: string, from: nat): (r: Option<Found>)
    requires from <= |s|
    ensures r.Some? ==> from <= r.value.at && MatchCreateAt(s, r.value.at) == Some(r.value.caps)
    ensures r.Some? ==> forall q :: from <= q < r.value.at ==> MatchCreateAt(s, q).None?
    ensures r.None? ==> forall q: nat :: from <= q ==> MatchCreateAt(s, q).None?
    decreases |s| - from
  {
    match MatchCreateAt(s, from)
    case Some(c) => Some(Found(from, c))
    case None =>
      if from == |s| then
        NoMatchPastEnd(s);
        None
      else FindCreate(s, from + 1)
  }

  /** The leftmost match is the first position with a match. */
  lemma FindCreateIsLeftmost(s: string, p: nat)
    requires p <= |s|
    requires MatchCreateAt(s, p).Some?
    requires forall q :: 0 <= q < p ==> MatchCreateAt(s, q).None?
    ensures FindCreate(s, 0) == Some(Found(p, MatchCreateAt(s, p).value))
  {
    var r := FindCreate(s, 0);
    assert r.Some?;
    assert r.value.at == p;
  }

  /** A match contains the marker the replay loop dispatches on. */
  lemma MatchImpliesMarker(s: string)
    requires FindCreate(s, 0).Some?
    ensures Contains(s, CREATED_MARKER)
  {
    var p := FindCreate(s, 0).value.at;
    OccursParts(s, CREATED_MARKER, " with name: '", p);
  }

  function DigitValue(c: char): nat
    requires IsAsciiDigit(c)
  {
    (c as int) - ('0' as int)
  }

  function DigitChar(d: nat): (c: char)
    requires d < 10
    ensures IsAsciiDigit(c) && DigitValue(c) == d
  {
    ('0' as int + d) as char
  }

  /** The value of a string of ASCII digits, most significant first. */
  function DecimalValue(t: string): nat
    requires AllIn(t, Digit)
    decreases |t|
  {
    if t == [] then 0 else DecimalValue(t[..|t| - 1]) * 10 + DigitValue(t[|t| - 1])
  }

  /** The decimal rendering of `n`, without leading zeros. */
  function Decimal(n: nat): (t: string)
    ensures |t| > 0 && AllIn(t, Digit)
    ensures DecimalValue(t) == n
    ensures n > 0 ==> t[0] != '0'
    decreases n
  {
    if n < 10 then [DigitChar(n)]
    else
      var t := Decimal(n / 10) + [DigitChar(n % 10)];
      assert t[..|t| - 1] == Decimal(n / 10);
      t
  }

  /** `str::parse::<usize>`: an optional `+`, then at least one ASCII digit;
      a value above the largest `usize` is an error. */
  function ParseUsize(t: string): (r: Option<Usize>)
    ensures r.Some? ==> var digits := if |t| > 0 && t[0] == '+' then t[1..] else t;
                        digits != [] && AllIn(digits, Digit) && r.value == DecimalValue(digits)
    ensures AllIn(t, Digit) && t != [] ==> (r.Some? <==> DecimalValue(t) <= USIZE_MAX)
  {
    var digits := if |t| > 0 && t[0] == '+' then t[1..] else t;
    if digits == [] || !AllIn(digits, Digit) then None
    else if DecimalValue(digits) > USIZE_MAX then None
    else Some(DecimalValue(digits))
  }

  /** Parsing a rendered `usize` gives it back. */
  lemma ParseDecimal(n: Usize)
    ensures ParseUsize(Decimal(n)) == Some(n)
  {
    assert Decimal(n)[0] != '+' by {
      assert IsAsciiDigit(Decimal(n)[0]);
    }
  }

  /** A dimension too large for `usize` is a parse error. */
  lemma ParseDecimalOverflow(n: nat)
    requires n > USIZE_MAX
    ensures ParseUsize(Decimal(n)).None?
  {
    assert Decimal(n)[0] != '+' by {
      assert IsAsciiDigit(Decimal(n)[0]);
    }
  }

  /** The name each distance kind is written with in the log. */
  function DistanceWord(d: Distance): string {
    match d
    case DotProduct => "DotProduct"
    case Cosine => "Cosine"
    case Euclidean => "Euclidean"
  }

  /** The distance match of `parse_and_create_collection`: exactly the three
      names, case included; anything else is unknown. */
  function DistanceFromWord(w: string): (r: Option<Distance>)
    ensures r.Some? ==> DistanceWord(r.value) == w
    ensures r.None? ==> forall d :: DistanceWord(d) != w
  {
    if w == "DotProduct" then Some(DotProduct)
    else if w == "Cosine" then Some(Cosine)
    else if w == "Euclidean" then Some(Euclidean)
    else None
  }

  /** The errors `parse_and_create_collection` can return. */
  datatype ReplayError =
    | ParseIntError
    | UnknownDistance
    | Registry(error: Error)

  /** What a log entry asks for. */
  datatype LineParse =
    | NoMatch
    | Invalid(error: ReplayError)
    | Request(name: string, dimension: Usize, distance: Distance)

  /** The parsing part of `parse_and_create_collection`: the leftmost match,
      then the dimension, then the distance word. */
  function ParseCreateLine(line: string): (r: LineParse)
    ensures r.NoMatch? <==> forall q: nat :: MatchCreateAt(line, q).None?
    ensures r.Invalid? ==> r.error == ParseIntError || r.error == UnknownDistance
    ensures !r.NoMatch? ==> FindCreate(line, 0).Some?
    ensures r == Invalid(ParseIntError) ==> ParseUsize(FindCreate(line, 0).value.caps.digits).None?
    ensures r == Invalid(UnknownDistance) ==>
              && ParseUsize(FindCreate(line, 0).value.caps.digits).Some?
              && forall d :: DistanceWord(d) != FindCreate(line, 0).value.caps.word
    ensures r.Request? ==>
              var c := FindCreate(line, 0).value.caps;
              c.name == r.name && ParseUsize(c.digits) == Some(r.dimension) && c.word == DistanceWord(r.distance)
  {
    match FindCreate(line, 0)
    case None => NoMatch
    case Some(found) =>
      match ParseUsize(found.caps.digits)
      case None => Invalid(ParseIntError)
      case Some(dimension) =>
        match DistanceFromWord(found.caps.word)
        case None => Invalid(UnknownDistance)
        case Some(distance) => Request(found.caps.name, dimension, distance)
  }

  /** `parse_and_create_collection` on a registry value: an entry without a
      match changes nothing and succeeds; a match whose dimension or distance
      is unreadable changes nothing and fails; otherwise the collection is
      created as `create_collection` does, whose refusal is passed on. */
  function ApplyCreateLine(line: string, db: Collections): (a: Applied<(), ReplayError>)
    ensures ParseCreateLine(line).NoMatch? ==> a == Applied(Ok(()), db)
    ensures ParseCreateLine(line).Invalid? ==> a == Applied(Err(ParseCreateLine(line).error), db)
    ensures ParseCreateLine(line).Request? ==>
              var q := ParseCreateLine(line);
              && a.db == Create(db, q.name, q.dimension, q.distance).db
              && (a.result.Ok? <==> q.name !in db)
              && (a.result.Err? ==> a.result.error == Registry(UniqueViolation))
  {
    match ParseCreateLine(line)
    case NoMatch => Applied(Ok(()), db)
    case Invalid(e) => Applied(Err(e), db)
    case Request(name, dimension, distance) =>
      var created := Create(db, name, dimension, distance);
      Applied(if created.result.Ok? then Ok(()) else Err(Registry(created.result.error)), created.db)
  }

  /** `parse_and_create_collection` on the shared registry. */
  method ParseAndCreateCollection(logLine: string, db: CacheDB) returns (r: Result<(), ReplayError>)
    requires db.Valid()
    modifies db
    ensures db.Valid()
    ensures Applied(r, db.collections) == ApplyCreateLine(logLine, old(db.collections))
  {
    match ParseCreateLine(logLine)
    case NoMatch =>
      r := Ok(());
    case Invalid(e) =>
      r := Err(e);
    case Request(name, dimension, distance) =>
      var created := db.CreateCollection(name, dimension, distance);
      r := if created.Ok? then Ok(()) else Err(Registry(created.error));
  }

  /** No match starts inside a prefix that has no `C`, the first character
      of the pattern. */
  lemma NoMatchInPrefix(prefix: string, rest: string)
    requires 'C' !in prefix
    ensures forall q :: 0 <= q < |prefix| ==> MatchCreateAt(prefix + rest, q).None?
  {
    var line := prefix + rest;
    forall q | 0 <= q < |prefix| ensures MatchCreateAt(line, q).None? {
      assert line[q] == prefix[q] != NAME_PREFIX[0];
      assert !OccursAt(line, NAME_PREFIX, q);
    }
  }

  lemma OccursInMiddle(prefix: string, text: string, suffix: string)
    ensures OccursAt(prefix + text + suffix, text, |prefix|)
  {
    var line := prefix + text + suffix;
    forall k | 0 <= k < |text| ensures line[|prefix| + k] == text[k] {
    }
  }

  /** The text of admissible groups, after text without a `C`, is the
      leftmost match. */
  lemma FindCreateAfterPrefix(prefix: string, c: Captures, suffix: string)
    requires 'C' !in prefix
    requires ValidCaptures(c)
    ensures FindCreate(prefix + CreateLineText(c) + suffix, 0) == Some(Found(|prefix|, c))
  {
    var text := CreateLineText(c);
    var line := prefix + text + suffix;
    assert MatchCreateAt(line, |prefix|) == Some(c) by {
      OccursInMiddle(prefix, text, suffix);
      MatchCreateAtIff(line, |prefix|, c);
    }
    assert forall q :: 0 <= q < |prefix| ==> MatchCreateAt(line, q).None? by {
      NoMatchInPrefix(prefix, text + suffix);
      assert prefix + (text + suffix) == line;
    }
    FindCreateIsLeftmost(line, |prefix|);
  }

  lemma DistanceWordAdmissible(d: Distance)
    ensures |DistanceWord(d)| > 0 && AllIn(DistanceWord(d), NotQuote)
  {
  }

  /** The text the creation pattern expects for given groups (a name without
      quotes, a decimal dimension, a distance name), after any text without a
      `C` and before anything, parses back to those groups. */
  lemma ParseCreateLineRoundTrip(prefix: string, name: string, dimension: Usize, distance: Distance, suffix: string)
    requires 'C' !in prefix
    requires |name| > 0 && AllIn(name, NotQuote)
    ensures ParseCreateLine(prefix + CreateLineText(Captures(name, Decimal(dimension), DistanceWord(distance))) + suffix)
         == Request(name, dimension, distance)
  {
    var c := Captures(name, Decimal(dimension), DistanceWord(distance));
    DistanceWordAdmissible(distance);
    FindCreateAfterPrefix(prefix, c, suffix);
    ParseDecimal(dimension);
  }

  /** One entry of the replay loop: entries with the creation marker go to
      `parse_and_create_collection` (its result is dropped); entries with the
      insertion marker, and all others, leave the registry as it is. */
  function ReplayEntry(entry: string, db: Collections): (r: Collections)
    ensures !Contains(entry, CREATED_MARKER) ==> r == db
  {
    if Contains(entry, CREATED_MARKER) then ApplyCreateLine(entry, db).db
    else db
  }

  /** The replay loop over all entries, in order; no collection name is ever
      lost. */
  function Replay(entries: seq<string>, db: Collections): (r: Collections)
    ensures db.Keys <= r.Keys
    decreases |entries|
  {
    if entries == [] then db
    else ReplayEntry(entries[|entries| - 1], Replay(entries[..|entries| - 1], db))
  }

  lemma ReplaySnoc(entries: seq<string>, i: nat, db: Collections)
    requires i < |entries|
    ensures Replay(entries[..i + 1], db) == ReplayEntry(entries[i], Replay(entries[..i], db))
  {
    assert entries[..i + 1][..i] == entries[..i];
  }

  /** One entry keeps every existing collection and adds only empty ones. */
  lemma ReplayEntryStep(entry: string, db: Collections)
    ensures var r := ReplayEntry(entry, db);
            && (forall n :: n in db ==> n in r && r[n] == db[n])
            && (forall n :: n in r && n !in db ==> r[n].embeddings == [])
  {
    if Contains(entry, CREATED_MARKER) && ParseCreateLine(entry).Request? {
      var q := ParseCreateLine(entry);
      assert ReplayEntry(entry, db) == Create(db, q.name, q.dimension, q.distance).db;
    }
  }

  /** Replay never changes or removes a collection it started with. */
  lemma {:induction false} ReplayKeepsExisting(entries: seq<string>, db: Collections)
    ensures forall n :: n in db ==> n in Replay(entries, db) && Replay(entries, db)[n] == db[n]
    decreases |entries|
  {
    if entries != [] {
      var prefix := entries[..|entries| - 1];
      ReplayKeepsExisting(prefix, db);
      ReplayEntryStep(entries[|entries| - 1], Replay(prefix, db));
    }
  }

  /** Every collection replay adds is empty: embeddings are not replayed. */
  lemma {:induction false} ReplayAddsOnlyEmpty(entries: seq<string>, db: Collections)
    ensures forall n :: n in Replay(entries, db) && n !in db ==> Replay(entries, db)[n].embeddings == []
    decreases |entries|
  {
    if entries != [] {
      var prefix := entries[..|entries| - 1];
      ReplayAddsOnlyEmpty(prefix, db);
      ReplayEntryStep(entries[|entries| - 1], Replay(prefix, db));
    }
  }

  /** Replay keeps the registry well formed. */
  lemma {:induction false} ReplayPreservesWellFormed(entries: seq<string>, db: Collections)
    requires AllWellFormed(db)
    ensures AllWellFormed(Replay(entries, db))
    decreases |entries|
  {
    if entries != [] {
      var before := Replay(entries[..|entries| - 1], db);
      ReplayPreservesWellFormed(entries[..|entries| - 1], db);
      var q := ParseCreateLine(entries[|entries| - 1]);
      if q.Request? {
        CreateDeletePreserveWellFormed(before, q.name, q.dimension, q.distance);
      }
    }
  }

  /** Entries without the creation marker (insertions included) are ignored. */
  lemma {:induction false} ReplayIgnoresUnmarked(entries: seq<string>, db: Collections)
    requires forall i :: 0 <= i < |entries| ==> !Contains(entries[i], CREATED_MARKER)
    ensures Replay(entries, db) == db
    decreases |entries|
  {
    if entries != [] {
      ReplayIgnoresUnmarked(entries[..|entries| - 1], db);
    }
  }

  /** An entry holding the creation pattern's text for given groups, after
      text containing no `C` (so no earlier match can start there), recreates
      that collection, unless the name is already taken. */
  lemma ReplayRecreatesCollection(prefix: string, name: string, dimension: Usize, distance: Distance,
                                  suffix: string, db: Collections)
    requires 'C' !in prefix
    requires |name| > 0 && AllIn(name, NotQuote)
    ensures var entry := prefix + CreateLineText(Captures(name, Decimal(dimension), DistanceWord(distance))) + suffix;
            ReplayEntry(entry, db) == Create(db, name, dimension, distance).db
  {
    var entry := prefix + CreateLineText(Captures(name, Decimal(dimension), DistanceWord(distance))) + suffix;
    ParseCreateLineRoundTrip(prefix, name, dimension, distance, suffix);
    MatchImpliesMarker(entry);
  }

  /** One item of `BufReader::lines`: a line without its terminator, or the
      error met reading it. */
  datatype LineRead = Line(text: string) | ReadFailure(message: string)

  /** The log file: the lines read from it, or the error met opening it. */
  datatype LogFile = Opened(lines: seq<LineRead>) | OpenFailure(message: string)

  /** The reading loop: lines are appended with no separator; the first read
      error ends it, so an error is the message of some failed line. */
  function ReadLines(lines: seq<LineRead>): (r: Result<string, string>)
    ensures r.Err? ==> exists j :: 0 <= j < |lines| && lines[j] == ReadFailure(r.error)
    decreases |lines|
  {
    if lines == [] then Ok("")
    else
      var before := ReadLines(lines[..|lines| - 1]);
      if before.Err? then before
      else
        match lines[|lines| - 1]
        case ReadFailure(m) => Err(m)
        case Line(t) => Ok(before.value + t)
  }

  /** Opening and reading the log: an error is the opening error or the
      message of a line that failed to read. */
  function ReadLog(file: LogFile): (r: Result<string, string>)
    ensures r.Err? && file.OpenFailure? ==> r.error == file.message
    ensures r.Err? && file.Opened? ==>
              exists j :: 0 <= j < |file.lines| && file.lines[j] == ReadFailure(r.error)
  {
    match file
    case OpenFailure(m) => Err(m)
    case Opened(lines) => ReadLines(lines)
  }

  /** The texts of the lines, a failed read counting as empty. */
  function Texts(lines: seq<LineRead>): (r: seq<string>)
    ensures |r| == |lines|
  {
    seq(|lines|, i requires 0 <= i < |lines| => if lines[i].Line? then lines[i].text else "")
  }

  /** Reading succeeds exactly when every line is read, and then yields the
      lines' texts joined together. */
  lemma {:induction false} ReadLinesOk(lines: seq<LineRead>)
    ensures ReadLines(lines).Ok? <==> forall j :: 0 <= j < |lines| ==> lines[j].Line?
    ensures ReadLines(lines).Ok? ==> ReadLines(lines).value == Concat(Texts(lines))
    decreases |lines|
  {
    if lines != [] {
      var init := lines[..|lines| - 1];
      ReadLinesOk(init);
      assert forall j :: 0 <= j < |init| ==> init[j] == lines[j];
      assert Texts(lines) == Texts(init) + [Texts(lines)[|lines| - 1]];
      ConcatAppend(Texts(init), [Texts(lines)[|lines| - 1]]);
      assert Concat([Texts(lines)[|lines| - 1]]) == Texts(lines)[|lines| - 1];
    }
  }

  /** A read error is reported with the message of the first failed line. */
  lemma {:induction false} ReadLinesFirstFailure(lines: seq<LineRead>)
    requires ReadLines(lines).Err?
    ensures exists j :: 0 <= j < |lines| && lines[j] == ReadFailure(ReadLines(lines).error)
              && forall k :: 0 <= k < j ==> lines[k].Line?
    decreases |lines|
  {
    var init := lines[..|lines| - 1];
    assert forall j :: 0 <= j < |init| ==> init[j] == lines[j];
    if ReadLines(init).Err? {
      ReadLinesFirstFailure(init);
    } else {
      ReadLinesOk(init);
      assert lines[|lines| - 1] == ReadFailure(ReadLines(lines).error);
    }
  }

  /** Once reading a prefix has failed, the rest is not read. */
  lemma {:induction false} ReadLinesErrSticks(lines: seq<LineRead>, i: nat)
    requires i <= |lines| && ReadLines(lines[..i]).Err?
    ensures ReadLines(lines) == ReadLines(lines[..i])
    decreases |lines| - i
  {
    if i == |lines| {
      assert lines[..i] == lines;
    } else {
      assert lines[..i + 1][..i] == lines[..i];
      ReadLinesErrSticks(lines, i + 1);
    }
  }

  /** The second loop of `replay_logs`: each entry mentioning the creation
      marker goes through `parse_and_create_collection` against `db`; entries
      mentioning the insertion marker, and all others, change nothing. */
  method ReplayEntries(entries: seq<string>, db: CacheDB)
    requires db.Valid()
    modifies db
    ensures db.Valid()
    ensures db.collections == Replay(entries, old(db.collections))
  {
    for i := 0 to |entries|
      invariant db.Valid()
      invariant db.collections == Replay(entries[..i], old(db.collections))
    {
      var entry := entries[i];
      ghost var before := db.collections;
      if Contains(entry, CREATED_MARKER) {
        var ignored := ParseAndCreateCollection(entry, db);
      } else if Contains(entry, INSERTED_MARKER) {
        // Inserted embeddings are recognised but not replayed.
      }
      assert db.collections == ReplayEntry(entry, before);
      ReplaySnoc(entries, i, old(db.collections));
    }
    assert entries[..|entries|] == entries;
  }

  /** `replay_logs`: read the whole log, cut it into entries and replay them
      on a fresh registry. A read error is returned as its message; errors of
      single entries are dropped. `rebuilt` is the registry the replay
      leaves; it is not returned to the caller. */
  method ReplayLogs(file: LogFile) returns (r: Result<(), string>, ghost rebuilt: Collections)
    ensures r.Ok? <==> ReadLog(file).Ok?
    ensures r.Err? ==> r.error == ReadLog(file).error
    ensures r.Ok? ==> rebuilt == Replay(TrimAll(Pieces(ReadLog(file).value)), map[])
    ensures r.Ok? ==> AllWellFormed(rebuilt)
  {
    var db := new CacheDB();
    if file.OpenFailure? {
      return Err(file.message), map[];
    }
    var lines := file.lines;
    var content := "";
    for i := 0 to |lines|
      invariant ReadLines(lines[..i]) == Ok(content)
    {
      assert lines[..i + 1][..i] == lines[..i];
      match lines[i]
      case ReadFailure(m) =>
        ReadLinesErrSticks(lines, i + 1);
        return Err(m), map[];
      case Line(t) =>
        content := content + t;
    }
    assert lines[..|lines|] == lines;
    var entries := SplitByDate(content);
    ReplayEntries(entries, db);
    r, rebuilt := Ok(()), db.collections;
  }
}
