/**
 * What `detect_questions` computes from the extracted fragments: the first
 * position of every question number, the numbers in ascending order, and the
 * mapping keyed by their decimal strings.
 */
module Detection {
  import opened Wrappers
  import opened Text
  import opened Patterns
  import opened Extraction

  /** A mapping value: `{"page", "x", "y", "text"}`. */
  datatype QuestionPosition = QuestionPosition(page: nat, x: real, y: real, text: string)

  /** One item of the ordered mapping `{str(q): position}`. */
  datatype Entry = Entry(key: string, position: QuestionPosition)

  /** The position recorded for a fragment: its page and top-left corner. */
  function PositionOf(f: Fragment): QuestionPosition
  {
    QuestionPosition(f.page, f.x0, f.y0, f.text)
  }

  /** What a fragment contributes to the scan: the number it announces, if any, and its position. */
  datatype Candidate = Candidate(number: Option<nat>, position: QuestionPosition)

  function CandidateOf(f: Fragment): Candidate
  {
    Candidate(MatchText(f.text), PositionOf(f))
  }

  /** The candidates of the extracted fragments, in extraction order. */
  function Candidates(frags: seq<Fragment>): (cs: seq<Candidate>)
    ensures |cs| == |frags|
  {
    seq(|frags|, i requires 0 <= i < |frags| => CandidateOf(frags[i]))
  }

  // ---------------------------------------------------------------------------
  // The scan: one pass over the candidates, a number is recorded only the first
  // time it is seen.
  // ---------------------------------------------------------------------------

  /** The dictionary `question_mapping` after the candidates `cs`. */
  function Scan(cs: seq<Candidate>): map<nat, QuestionPosition>
  {
    if cs == [] then map[]
    else
      var m := Scan(cs[..|cs| - 1]);
      var c := cs[|cs| - 1];
      if c.number.Some? && c.number.value !in m then m[c.number.value := c.position] else m
  }

  /** The list `detected_questions` after the candidates `cs`: numbers in order of first sight. */
  function FirstSeen(cs: seq<Candidate>): seq<nat>
  {
    if cs == [] then []
    else
      var prev := FirstSeen(cs[..|cs| - 1]);
      var c := cs[|cs| - 1];
      if c.number.Some? && c.number.value !in Scan(cs[..|cs| - 1]) then prev + [c.number.value] else prev
  }

  /** No number occurs twice in `xs`. */
  predicate Distinct(xs: seq<nat>)
  {
    forall i, j :: 0 <= i < j < |xs| ==> xs[i] != xs[j]
  }

  /** One more candidate: the scan records its number only if it is new. */
  lemma ScanStep(cs: seq<Candidate>, i: nat)
    requires i < |cs|
    ensures var c := cs[i];
      Scan(cs[..i + 1]) == if c.number.Some? && c.number.value !in Scan(cs[..i])
        then Scan(cs[..i])[c.number.value := c.position] else Scan(cs[..i])
    ensures var c := cs[i];
      FirstSeen(cs[..i + 1]) == if c.number.Some? && c.number.value !in Scan(cs[..i])
        then FirstSeen(cs[..i]) + [c.number.value] else FirstSeen(cs[..i])
  {
    assert cs[..i + 1][..i] == cs[..i];
  }

  /** A number is a key of the scan exactly when some candidate announces it. */
  lemma {:induction false} ScanKeys(cs: seq<Candidate>, q: nat)
    ensures q in Scan(cs) <==> exists i :: 0 <= i < |cs| && cs[i].number == Some(q)
  {
    if cs != [] {
      var n := |cs| - 1;
      var init := cs[..n];
      ScanKeys(init, q);
      assert Scan(cs) == Scan(cs[..n + 1]) by { assert cs[..n + 1] == cs; }
      ScanStep(cs, n);
      if exists i :: 0 <= i < |cs| && cs[i].number == Some(q) {
        var i :| 0 <= i < |cs| && cs[i].number == Some(q);
        if i < n {
          assert init[i] == cs[i];
        }
      }
      if q in Scan(init) {
        var i :| 0 <= i < |init| && init[i].number == Some(q);
        assert cs[i] == init[i];
      }
    }
  }

  /**
   * The position recorded for a number is that of the first candidate that
   * announces it; later candidates with the same number change nothing.
   */
  lemma {:induction false} ScanKeepsFirstOccurrence(cs: seq<Candidate>, i: nat, q: nat)
    requires i < |cs| && cs[i].number == Some(q)
    requires forall j :: 0 <= j < i ==> cs[j].number != Some(q)
    ensures q in Scan(cs) && Scan(cs)[q] == cs[i].position
  {
    var n := |cs| - 1;
    var init := cs[..n];
    assert Scan(cs) == Scan(cs[..n + 1]) by { assert cs[..n + 1] == cs; }
    ScanStep(cs, n);
    if i < n {
      assert init[i] == cs[i];
      forall j | 0 <= j < i
        ensures init[j].number != Some(q)
      {
        assert init[j] == cs[j];
      }
      ScanKeepsFirstOccurrence(init, i, q);
    } else {
      forall j | 0 <= j < n
        ensures init[j].number != Some(q)
      {
        assert init[j] == cs[j];
      }
      ScanKeys(init, q);
    }
  }

  /**
   * `detected_questions` holds each key of `question_mapping` exactly once, so
   * its length is the number of detected questions.
   */
  lemma {:induction false} FirstSeenMatchesScan(cs: seq<Candidate>)
    ensures Distinct(FirstSeen(cs))
    ensures forall q :: q in FirstSeen(cs) <==> q in Scan(cs)
    ensures |FirstSeen(cs)| == |Scan(cs)|
  {
    if cs != [] {
      var n := |cs| - 1;
      var init := cs[..n];
      FirstSeenMatchesScan(init);
      assert Scan(cs) == Scan(cs[..n + 1]) && FirstSeen(cs) == FirstSeen(cs[..n + 1]) by {
        assert cs[..n + 1] == cs;
      }
      ScanStep(cs, n);
      var prev := FirstSeen(init);
      var c := cs[n];
      if c.number.Some? && c.number.value !in Scan(init) {
        var q := c.number.value;
        var next := prev + [q];
        assert q !in prev;
        forall i, j | 0 <= i < j < |next|
          ensures next[i] != next[j]
        {
          if j == |prev| {
            assert next[i] == prev[i];
          } else {
            assert next[i] == prev[i] && next[j] == prev[j];
          }
        }
        assert forall x :: x in next <==> x in prev || x == q;
        assert Scan(cs).Keys == Scan(init).Keys + {q};
      }
    }
  }

  // ---------------------------------------------------------------------------
  // `sorted()` on integers.
  // ---------------------------------------------------------------------------

  predicate Ascending(xs: seq<nat>)
  {
    forall i, j :: 0 <= i < j < |xs| ==> xs[i] <= xs[j]
  }

  predicate StrictlyAscending(xs: seq<nat>)
  {
    forall i, j :: 0 <= i < j < |xs| ==> xs[i] < xs[j]
  }

  /** Every element after the head of an ascending list is at least the head. */
  lemma HeadBelowRest(xs: seq<nat>)
    requires xs != [] && Ascending(xs)
    ensures forall y :: y in multiset(xs[1..]) ==> xs[0] <= y
    ensures StrictlyAscending(xs) ==> forall y :: y in multiset(xs[1..]) ==> xs[0] < y
  {
    forall y | y in multiset(xs[1..])
      ensures xs[0] <= y
      ensures StrictlyAscending(xs) ==> xs[0] < y
    {
      var k :| 0 <= k < |xs[1..]| && xs[1..][k] == y;
      assert xs[k + 1] == y;
    }
  }

  /** A head no larger (smaller) than everything after it keeps a list (strictly) ascending. */
  lemma ConsAscending(a: nat, rest: seq<nat>)
    requires Ascending(rest) && forall y :: y in rest ==> a <= y
    ensures Ascending([a] + rest)
    ensures StrictlyAscending(rest) && (forall y :: y in rest ==> a < y) ==> StrictlyAscending([a] + rest)
  {
    var r := [a] + rest;
    forall i, j | 0 <= i < j < |r|
      ensures r[i] <= r[j]
      ensures StrictlyAscending(rest) && (forall y :: y in rest ==> a < y) ==> r[i] < r[j]
    {
      assert r[j] == rest[j - 1] && rest[j - 1] in rest;
      if i > 0 { assert r[i] == rest[i - 1]; }
    }
  }

  /** `x` inserted before the first element of `xs` that is not smaller. */
  function Insert(x: nat, xs: seq<nat>): (r: seq<nat>)
    requires Ascending(xs)
    ensures Ascending(r)
    ensures multiset(r) == multiset(xs) + multiset{x}
  {
    if xs == [] || x <= xs[0] then
      InsertInFront(x, xs);
      [x] + xs
    else
      var rest := Insert(x, xs[1..]);
      InsertBehindHead(x, xs, rest);
      [xs[0]] + rest
  }

  lemma InsertInFront(x: nat, xs: seq<nat>)
    requires Ascending(xs) && (xs == [] || x <= xs[0])
    ensures Ascending([x] + xs)
  {
    assert forall y :: y in xs ==> x <= y by {
      if xs != [] {
        HeadBelowRest(xs);
        assert xs == [xs[0]] + xs[1..];
      }
    }
    ConsAscending(x, xs);
  }

  lemma InsertBehindHead(x: nat, xs: seq<nat>, rest: seq<nat>)
    requires xs != [] && Ascending(xs) && xs[0] < x
    requires Ascending(rest) && multiset(rest) == multiset(xs[1..]) + multiset{x}
    ensures Ascending([xs[0]] + rest)
    ensures multiset([xs[0]] + rest) == multiset(xs) + multiset{x}
  {
    assert xs == [xs[0]] + xs[1..];
    HeadBelowRest(xs);
    assert forall y :: y in rest ==> xs[0] <= y by {
      forall y | y in rest ensures xs[0] <= y {
        assert y in multiset(rest);
      }
    }
    ConsAscending(xs[0], rest);
  }

  /** Inserting a new number into a strictly ascending list keeps it strictly ascending. */
  lemma {:induction false} InsertKeepsStrict(x: nat, xs: seq<nat>)
    requires StrictlyAscending(xs) && x !in xs
    ensures StrictlyAscending(Insert(x, xs))
  {
    if xs == [] || x <= xs[0] {
      if xs != [] {
        HeadBelowRest(xs);
        assert xs == [xs[0]] + xs[1..];
        assert x < xs[0];
      }
      ConsAscending(x, xs);
    } else {
      var tail := xs[1..];
      StrictTail(xs);
      assert x !in tail by { assert x in tail ==> x in xs; }
      InsertKeepsStrict(x, tail);
      var rest := Insert(x, tail);
      HeadBelowInserted(x, xs, rest);
      ConsAscending(xs[0], rest);
    }
  }

  lemma StrictTail(xs: seq<nat>)
    requires xs != [] && StrictlyAscending(xs)
    ensures StrictlyAscending(xs[1..])
  {
    var tail := xs[1..];
    forall i, j | 0 <= i < j < |tail| ensures tail[i] < tail[j] {
      assert tail[i] == xs[i + 1] && tail[j] == xs[j + 1];
    }
  }

  /** Inserting a number above the head of a strictly ascending list behind the head keeps the head below everything. */
  lemma HeadBelowInserted(x: nat, xs: seq<nat>, rest: seq<nat>)
    requires xs != [] && StrictlyAscending(xs) && xs[0] < x
    requires multiset(rest) == multiset(xs[1..]) + multiset{x}
    ensures forall y :: y in rest ==> xs[0] < y
  {
    HeadBelowRest(xs);
    forall y | y in rest ensures xs[0] < y {
      assert y in multiset(rest);
    }
  }

  /** The tail of a list without repeats has no repeats and does not hold the head. */
  lemma DistinctTail(xs: seq<nat>)
    requires xs != [] && Distinct(xs)
    ensures Distinct(xs[1..]) && xs[0] !in multiset(xs[1..])
  {
    forall k | 0 <= k < |xs[1..]|
      ensures xs[1..][k] != xs[0]
    {
      assert xs[1..][k] == xs[k + 1];
    }
  }

  /**
   * Python's `sorted()` on a list of integers: an ascending permutation of its
   * argument, strictly ascending when the argument has no repeats.
   */
  function SortAscending(xs: seq<nat>): (r: seq<nat>)
    ensures Ascending(r)
    ensures multiset(r) == multiset(xs)
    ensures Distinct(xs) ==> StrictlyAscending(r)
  {
    if xs == [] then []
    else
      var rest := SortAscending(xs[1..]);
      SortStep(xs, rest);
      Insert(xs[0], rest)
  }

  /** Inserting the head into the sorted tail sorts the whole list. */
  lemma SortStep(xs: seq<nat>, rest: seq<nat>)
    requires xs != [] && Ascending(rest) && multiset(rest) == multiset(xs[1..])
    requires Distinct(xs[1..]) ==> StrictlyAscending(rest)
    ensures multiset(Insert(xs[0], rest)) == multiset(xs)
    ensures Distinct(xs) ==> StrictlyAscending(Insert(xs[0], rest))
  {
    assert xs == [xs[0]] + xs[1..];
    if Distinct(xs) {
      DistinctTail(xs);
      assert xs[0] !in multiset(rest);
      InsertKeepsStrict(xs[0], rest);
    }
  }

  // ---------------------------------------------------------------------------
  // The detector's result.
  // ---------------------------------------------------------------------------

  /** `self.detected_questions`: the detected numbers, ascending. */
  function DetectedNumbers(cs: seq<Candidate>): seq<nat>
  {
    SortAscending(FirstSeen(cs))
  }

  /** `{str(q): m[q] for q in keys}` as an ordered list of items. */
  function EntriesFor(m: map<nat, QuestionPosition>, keys: seq<nat>): seq<Entry>
    requires forall k :: k in keys ==> k in m
  {
    seq(|keys|, i requires 0 <= i < |keys| => Entry(NatToString(keys[i]), m[keys[i]]))
  }

  /**
   * `{str(q): m[q] for q in sorted(order)}` where `order` lists keys of `m`
   * (the dictionary's keys in insertion order).
   */
  function SortedEntries(m: map<nat, QuestionPosition>, order: seq<nat>): seq<Entry>
    requires forall k :: k in order ==> k in m
  {
    var keys := SortAscending(order);
    assert forall k :: k in keys ==> k in m by {
      forall k | k in keys ensures k in m {
        assert k in multiset(keys);
        assert k in multiset(order);
      }
    }
    EntriesFor(m, keys)
  }

  /** `self.question_mapping`: the mapping with string keys in ascending numeric order. */
  function DetectionEntries(cs: seq<Candidate>): seq<Entry>
  {
    FirstSeenMatchesScan(cs);
    SortedEntries(Scan(cs), FirstSeen(cs))
  }

  /**
   * The detected numbers are strictly ascending and are exactly the keys of the
   * scan, so there are as many of them as there are detected questions.
   */
  lemma DetectedNumbersAreScanKeys(cs: seq<Candidate>)
    ensures StrictlyAscending(DetectedNumbers(cs))
    ensures forall q :: q in DetectedNumbers(cs) <==> q in Scan(cs)
    ensures |DetectedNumbers(cs)| == |Scan(cs)|
  {
    FirstSeenMatchesScan(cs);
    var keys := DetectedNumbers(cs);
    forall q ensures q in keys <==> q in FirstSeen(cs) {
      assert q in keys <==> q in multiset(keys);
      assert q in FirstSeen(cs) <==> q in multiset(FirstSeen(cs));
    }
    assert |keys| == |multiset(keys)| == |multiset(FirstSeen(cs))| == |FirstSeen(cs)|;
  }

  /**
   * The mapping holds one item per detected question, in ascending numeric
   * order of the questions, keyed by `str(q)` and holding the first position of
   * `q`.
   */
  lemma DetectionEntriesShape(cs: seq<Candidate>)
    ensures var es := DetectionEntries(cs);
      var keys := DetectedNumbers(cs);
      && |es| == |keys| == |Scan(cs)|
      && (forall i :: 0 <= i < |es| ==>
            keys[i] in Scan(cs) && es[i] == Entry(NatToString(keys[i]), Scan(cs)[keys[i]]))
      && (forall i, j :: 0 <= i < j < |es| ==> keys[i] < keys[j] && es[i].key != es[j].key)
  {
    DetectedNumbersAreScanKeys(cs);
    var keys := DetectedNumbers(cs);
    forall i, j | 0 <= i < j < |keys|
      ensures NatToString(keys[i]) != NatToString(keys[j])
    {
      NatToStringInjective(keys[i], keys[j]);
    }
  }

  // ---------------------------------------------------------------------------
  // The mapping read back as a dictionary (as stored in a template and handed
  // to the marker).
  // ---------------------------------------------------------------------------

  /** `dict(items)`: later items overwrite earlier ones with the same key. */
  function AsMap(es: seq<Entry>): map<string, QuestionPosition>
  {
    if es == [] then map[]
    else AsMap(es[..|es| - 1])[es[|es| - 1].key := es[|es| - 1].position]
  }

  lemma {:induction false} AsMapKeys(es: seq<Entry>, k: string)
    ensures k in AsMap(es) <==> exists i :: 0 <= i < |es| && es[i].key == k
  {
    if es != [] {
      var n := |es| - 1;
      AsMapKeys(es[..n], k);
      if exists i :: 0 <= i < |es| && es[i].key == k {
        var i :| 0 <= i < |es| && es[i].key == k;
        if i < n { assert es[..n][i] == es[i]; }
      }
      if k in AsMap(es[..n]) {
        var i :| 0 <= i < n && es[..n][i].key == k;
        assert es[i].key == k;
      }
    }
  }

  /** In a list without repeated keys, each item is what its key looks up. */
  lemma {:induction false} AsMapLookup(es: seq<Entry>, i: nat)
    requires i < |es|
    requires forall a, b :: 0 <= a < b < |es| ==> es[a].key != es[b].key
    ensures es[i].key in AsMap(es) && AsMap(es)[es[i].key] == es[i].position
  {
    var n := |es| - 1;
    if i < n {
      assert es[..n][i] == es[i];
      AsMapLookup(es[..n], i);
      assert es[i].key != es[n].key;
    }
  }

  /**
   * Looking up `str(q)` in the detected mapping finds `q` exactly when `q` was
   * detected, and then finds the position of its first occurrence.
   */
  lemma TemplateLookup(cs: seq<Candidate>, q: nat)
    ensures NatToString(q) in AsMap(DetectionEntries(cs)) <==> q in Scan(cs)
    ensures q in Scan(cs) ==> AsMap(DetectionEntries(cs))[NatToString(q)] == Scan(cs)[q]
  {
    var es := DetectionEntries(cs);
    var keys := DetectedNumbers(cs);
    DetectionEntriesShape(cs);
    DetectedNumbersAreScanKeys(cs);
    AsMapKeys(es, NatToString(q));
    if NatToString(q) in AsMap(es) {
      var i :| 0 <= i < |es| && es[i].key == NatToString(q);
      NatToStringInjective(keys[i], q);
    }
    if q in Scan(cs) {
      var i :| 0 <= i < |keys| && keys[i] == q;
      AsMapLookup(es, i);
    }
  }

  /** The stored numbers and mapping satisfy the detector's invariant. */
  lemma DetectionConsistent(cs: seq<Candidate>)
    ensures var es := DetectionEntries(cs);
      var keys := DetectedNumbers(cs);
      && |keys| == |es|
      && StrictlyAscending(keys)
      && forall i :: 0 <= i < |es| ==> es[i].key == NatToString(keys[i])
  {
    DetectionEntriesShape(cs);
  }
}
