/**
 * Process records as the overlay receives them, and the search filter
 * (filterProcesses) applied to the cached snapshot.
 */
module ProcessFilter {
  import opened JsText

  /**
   * A JSON value that the overlay only turns into text: the numeric-looking
   * columns may arrive as numbers or as strings. A number is kept as the
   * text its toString produces.
   */
  datatype JsValue = JStr(s: string) | JNum(repr: string)

  /** value.toString() */
  function ToString(v: JsValue): string
  {
    match v
    case JStr(s) => s
    case JNum(repr) => repr
  }

  /**
   * One row of the listing. user, s, time and command are strings (the
   * filter calls toLowerCase on them directly); pid is an integer.
   */
  datatype Process = Process(
    pid: int,
    user: string,
    pr: JsValue,
    ni: JsValue,
    virt: JsValue,
    res: JsValue,
    shr: JsValue,
    s: string,
    cpu: JsValue,
    mem: JsValue,
    time: string,
    command: string)

  /** The twelve string forms the search looks at, in column order. */
  function FieldStrings(p: Process): (r: seq<string>)
    ensures |r| == 12
  {
    [IntToString(p.pid), p.user, ToString(p.pr), ToString(p.ni), ToString(p.virt),
     ToString(p.res), ToString(p.shr), p.s, ToString(p.cpu), ToString(p.mem),
     p.time, p.command]
  }

  /** The per-record test of filterProcesses, one disjunct per field, as written. */
  predicate Matches(p: Process, term: string)
  {
    || Includes(IntToString(p.pid), term)
    || Includes(Lower(p.user), term)
    || Includes(Lower(p.command), term)
    || Includes(Lower(ToString(p.cpu)), term)
    || Includes(Lower(ToString(p.mem)), term)
    || Includes(Lower(ToString(p.virt)), term)
    || Includes(Lower(ToString(p.res)), term)
    || Includes(Lower(ToString(p.shr)), term)
    || Includes(Lower(p.time), term)
    || Includes(Lower(ToString(p.pr)), term)
    || Includes(Lower(ToString(p.ni)), term)
    || Includes(Lower(p.s), term)
  }

  /** A record passes exactly when some field's lower-cased string form contains the term. */
  lemma MatchesIffSomeField(p: Process, term: string)
    ensures Matches(p, term) <==> exists i :: 0 <= i < 12 && Includes(Lower(FieldStrings(p)[i]), term)
  {
    LowerIntToString(p.pid);
    var f := FieldStrings(p);
    if Matches(p, term) {
      var i :=
        if Includes(IntToString(p.pid), term) then 0
        else if Includes(Lower(p.user), term) then 1
        else if Includes(Lower(p.command), term) then 11
        else if Includes(Lower(ToString(p.cpu)), term) then 8
        else if Includes(Lower(ToString(p.mem)), term) then 9
        else if Includes(Lower(ToString(p.virt)), term) then 4
        else if Includes(Lower(ToString(p.res)), term) then 5
        else if Includes(Lower(ToString(p.shr)), term) then 6
        else if Includes(Lower(p.time), term) then 10
        else if Includes(Lower(ToString(p.pr)), term) then 2
        else if Includes(Lower(ToString(p.ni)), term) then 3
        else 7;
      assert Includes(Lower(f[i]), term);
    } else {
      forall i | 0 <= i < 12 ensures !Includes(Lower(f[i]), term) {
      }
    }
  }

  /** a is a subsequence of b: b with some elements removed, order kept. */
  predicate IsSubsequence<T(==)>(a: seq<T>, b: seq<T>)
    decreases |b|
  {
    if a == [] then true
    else if b == [] then false
    else (a[0] == b[0] && IsSubsequence(a[1..], b[1..])) || IsSubsequence(a, b[1..])
  }

  /** The Array.filter step: the records that match, in snapshot order. */
  function KeepMatching(snapshot: seq<Process>, term: string): (r: seq<Process>)
    ensures IsSubsequence(r, snapshot)
    ensures forall p :: multiset(r)[p] == if Matches(p, term) then multiset(snapshot)[p] else 0
  {
    if snapshot == [] then []
    else
      var rest := KeepMatching(snapshot[1..], term);
      assert snapshot == [snapshot[0]] + snapshot[1..];
      if Matches(snapshot[0], term) then
        assert ([snapshot[0]] + rest)[1..] == rest;
        [snapshot[0]] + rest
      else rest
  }

  /**
   * filterProcesses(searchTerm): the empty term shows the whole snapshot;
   * otherwise the matching records in snapshot order, each kept with its
   * full multiplicity and every other record dropped.
   */
  function Filter(snapshot: seq<Process>, term: string): (r: seq<Process>)
    ensures term == [] ==> r == snapshot
    ensures IsSubsequence(r, snapshot)
    ensures forall p :: multiset(r)[p] == if term == [] || Matches(p, term) then multiset(snapshot)[p] else 0
  {
    if term == [] then
      IsSubsequenceReflexive(snapshot);
      snapshot
    else KeepMatching(snapshot, term)
  }

  lemma {:induction false} IsSubsequenceReflexive<T>(s: seq<T>)
    ensures IsSubsequence(s, s)
  {
    if s != [] {
      IsSubsequenceReflexive(s[1..]);
    }
  }

  /** Every record matches the empty term, so the early return for "" agrees with filtering. */
  lemma {:induction false} EmptyTermKeepsAll(snapshot: seq<Process>)
    ensures KeepMatching(snapshot, []) == snapshot
  {
    if snapshot != [] {
      IncludesEmpty(IntToString(snapshot[0].pid));
      EmptyTermKeepsAll(snapshot[1..]);
    }
  }

  /** A record of the snapshot is shown exactly when it matches; one that matches no field is dropped. */
  lemma FilterMembership(snapshot: seq<Process>, term: string, p: Process)
    requires p in snapshot
    ensures p in Filter(snapshot, term) <==> term == [] || Matches(p, term)
  {
    var r := Filter(snapshot, term);
    assert multiset(r)[p] == if term == [] || Matches(p, term) then multiset(snapshot)[p] else 0;
  }

  /** The filter never shows more rows than the snapshot holds. */
  lemma FilterLength(snapshot: seq<Process>, term: string)
    ensures |Filter(snapshot, term)| <= |snapshot|
  {
    SubsequenceLength(Filter(snapshot, term), snapshot);
  }

  lemma {:induction false} SubsequenceLength<T>(a: seq<T>, b: seq<T>)
    requires IsSubsequence(a, b)
    ensures |a| <= |b|
    decreases |b|
  {
    if a != [] {
      if a[0] == b[0] && IsSubsequence(a[1..], b[1..]) {
        SubsequenceLength(a[1..], b[1..]);
      } else {
        SubsequenceLength(a, b[1..]);
      }
    }
  }
}
