/** `source_for_address`: the row of the line table that an address belongs to. */
module LineLookup {
  datatype Row = Row(address: nat, file: string, line: int, isEnd: bool)

  datatype Lookup = NotFound | Found(row: Row)

  /** The rows from `start` up to `end` form a sequence; the row at `end`, if there is one, ends it. */
  ghost predicate IsSequence(rows: seq<Row>, start: nat, end: nat) {
    && start <= end <= |rows| && (start == 0 || rows[start - 1].isEnd) && (end == |rows| || rows[end].isEnd)
    && forall k :: start <= k < end ==> !rows[k].isEnd
  }

  /** Row `k` is the first one with the greatest address not above `a` in the rows from `start` up to `end`. */
  ghost predicate IsBest(rows: seq<Row>, start: nat, end: nat, a: nat, k: nat)
    requires end <= |rows|
  {
    && start <= k < end && rows[k].address <= a
    && (forall j :: start <= j < end && rows[j].address <= a ==> rows[j].address <= rows[k].address)
    && (forall j :: start <= j < k && rows[j].address <= a ==> rows[j].address < rows[k].address)
  }

  ghost predicate NoneBelow(rows: seq<Row>, start: nat, end: nat, a: nat)
    requires end <= |rows|
  {
    forall j :: start <= j < end ==> rows[j].address > a
  }

  /** The sequence covers `a`: it has a row at or below it and, if it is ended, ends above it. */
  ghost predicate Covers(rows: seq<Row>, start: nat, end: nat, a: nat) {
    && IsSequence(rows, start, end) && !NoneBelow(rows, start, end, a)
    && (end == |rows| || a < rows[end].address)
  }

  /** The answer for the first `n` rows, the sequences that are complete within them. */
  ghost predicate AnswerUpTo(rows: seq<Row>, n: nat, a: nat, r: Lookup)
    requires n <= |rows|
  {
    match r
    case NotFound => forall s, e :: 0 <= s <= e < n ==> !Covers(rows, s, e, a)
    case Found(row) => exists s, e, k :: 0 <= s <= k < e < n && IsAnswer(rows, n, a, row, s, e, k)
  }

  ghost predicate IsAnswer(rows: seq<Row>, n: nat, a: nat, row: Row, s: nat, e: nat, k: nat)
    requires n <= |rows|
  {
    && Covers(rows, s, e, a) && IsBest(rows, s, e, a, k) && row == rows[k]
    && forall s', e' :: e < s' <= e' < n ==> !Covers(rows, s', e', a)
  }

  /** The answer for the whole table: the best row of the last sequence that covers the address. */
  ghost predicate IsResult(rows: seq<Row>, a: nat, r: Lookup) {
    match r
    case NotFound => forall s, e :: 0 <= s <= e <= |rows| ==> !Covers(rows, s, e, a)
    case Found(row) => exists s, e, k :: 0 <= s <= k < e <= |rows| && IsLast(rows, a, row, s, e, k)
  }

  ghost predicate IsLast(rows: seq<Row>, a: nat, row: Row, s: nat, e: nat, k: nat) {
    && Covers(rows, s, e, a) && IsBest(rows, s, e, a, k) && row == rows[k]
    && forall s', e' :: e < s' <= e' <= |rows| ==> !Covers(rows, s', e', a)
  }

  /** `source_for_address`. */
  method SourceForAddress(rows: seq<Row>, address: nat) returns (result: Lookup)
    ensures IsResult(rows, address, result)
  {
    result := NotFound;
    var best, inSequence := NotFound, false;
    ghost var start, k := 0, 0;
    for n := 0 to |rows|
      invariant 0 <= start <= n && (start == 0 || rows[start - 1].isEnd)
      invariant forall j :: start <= j < n ==> !rows[j].isEnd
      invariant inSequence <==> start < n
      invariant if best.Found? then IsBest(rows, start, n, address, k) && best.row == rows[k]
        else NoneBelow(rows, start, n, address)
      invariant AnswerUpTo(rows, start, address, result)
    {
      var row := rows[n];
      if row.isEnd {
        SequenceEnds(rows, start, n, address, result, best, k);
        if inSequence && best.Found? && address < row.address { result := best; }
        inSequence, best := false, NotFound;
        start := n + 1;
      } else {
        if !inSequence {
          inSequence, best := true, NotFound;
        }
        if row.address <= address && (best.NotFound? || row.address > best.row.address) {
          best := Found(row);
          k := n;
        }
      }
    }
    TableEnds(rows, start, address, result, best, k);
    if inSequence && best.Found? { result := best; }
  }

  /** Two sequences with a row in common are the same. */
  lemma OneSequence(rows: seq<Row>, s: nat, e: nat, start: nat, end: nat)
    requires IsSequence(rows, s, e) && IsSequence(rows, start, end)
    ensures e < start || end < s || (s == start && e == end)
  {
    if s < start { assert rows[start - 1].isEnd; }
    if start < s { assert rows[s - 1].isEnd; }
    if e < end { assert rows[e].isEnd; }
    if end < e { assert rows[end].isEnd; }
  }

  /** At the end of a sequence the answer so far stands, or the sequence's best row replaces it. */
  lemma SequenceEnds(rows: seq<Row>, start: nat, n: nat, a: nat, result: Lookup, best: Lookup, k: nat)
    requires n < |rows| && IsSequence(rows, start, n)
    requires if best.Found? then IsBest(rows, start, n, a, k) && best.row == rows[k] else NoneBelow(rows, start, n, a)
    requires AnswerUpTo(rows, start, a, result)
    ensures AnswerUpTo(rows, n + 1, a, if best.Found? && a < rows[n].address then best else result)
  {
    forall s, e | 0 <= s <= e < n + 1 && Covers(rows, s, e, a)
      ensures e < start || (s == start && e == n && best.Found? && a < rows[n].address)
    {
      OneSequence(rows, s, e, start, n);
    }
    if best.Found? && a < rows[n].address {
      assert IsAnswer(rows, n + 1, a, best.row, start, n, k);
    } else if result.Found? {
      var s, e, j :| 0 <= s <= j < e < start && IsAnswer(rows, start, a, result.row, s, e, j);
      assert IsAnswer(rows, n + 1, a, result.row, s, e, j);
    }
  }

  /** The rows after the last end form a sequence that nothing bounds above. */
  lemma TableEnds(rows: seq<Row>, start: nat, a: nat, result: Lookup, best: Lookup, k: nat)
    requires IsSequence(rows, start, |rows|) && AnswerUpTo(rows, start, a, result)
    requires if best.Found? then IsBest(rows, start, |rows|, a, k) && best.row == rows[k]
      else NoneBelow(rows, start, |rows|, a)
    ensures IsResult(rows, a, if best.Found? then best else result)
  {
    forall s, e | 0 <= s <= e <= |rows| && Covers(rows, s, e, a)
      ensures e < start || (s == start && e == |rows| && best.Found?)
    {
      OneSequence(rows, s, e, start, |rows|);
    }
    if best.Found? {
      assert IsLast(rows, a, best.row, start, |rows|, k);
    } else if result.Found? {
      var s, e, j :| 0 <= s <= j < e < start && IsAnswer(rows, start, a, result.row, s, e, j);
      assert IsLast(rows, a, result.row, s, e, j);
    }
  }
}
