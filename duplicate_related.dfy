/**
 * duplicateRelated: copy the records of one relation of a product that are in
 * effect now over to another product, then optionally delete the originals.
 */
module Duplication {
  import opened Records

  /** The records a relation of `src` follows: key field `field` holds `src`. */
  function RelatedTo(field: string, src: string): Row -> bool {
    r => KeyedTo(r, field, src)
  }

  function NotRelatedTo(field: string, src: string): Row -> bool {
    r => !KeyedTo(r, field, src)
  }

  function CurrentlyRelatedTo(field: string, src: string, now: int): Row -> bool {
    r => KeyedTo(r, field, src) && ValidAt(r, now)
  }

  /** getRelated followed by filterByDate at `now`: the records the pass copies, in table order. */
  function RelatedList(rows: seq<Row>, field: string, src: string, now: int): (r: seq<Row>)
    ensures forall x {:trigger x in r} :: x in r ==> x in rows && KeyedTo(x, field, src) && ValidAt(x, now)
    ensures forall x {:trigger x in rows, KeyedTo(x, field, src)} ::
      x in rows && KeyedTo(x, field, src) && ValidAt(x, now) ==> x in r
  {
    var r := Filter(rows, CurrentlyRelatedTo(field, src, now));
    assert forall x {:trigger x in rows} :: CurrentlyRelatedTo(field, src, now)(x) == (KeyedTo(x, field, src) && ValidAt(x, now));
    r
  }

  /**
   * The copy of `r` the pass would create: re-keyed to `tgt` and, for an
   * entity with a fromDate, starting `now`; every other field is kept.
   */
  function CloneTo(r: Row, field: string, tgt: string, now: int): (n: Row)
    ensures KeyedTo(n, field, tgt)
    ensures n.fromDate.None? <==> r.fromDate.None?
    ensures n.fromDate.Some? ==> n.fromDate == Some(now)
    ensures n.thruDate == r.thruDate && n.data == r.data
    ensures n.key.Keys == r.key.Keys + {field}
    ensures forall f {:trigger n.key[f]} :: f in r.key && f != field ==> n.key[f] == r.key[f]
  {
    Row(r.key[field := tgt], if r.fromDate.Some? then Some(now) else None, r.thruDate, r.data)
  }

  /** A record in effect now whose key matches `n`'s, fromDate aside (the lookup before a copy). */
  predicate HasCurrentMatch(rows: seq<Row>, n: Row, now: int) {
    exists x {:trigger x in rows} :: x in rows && x.key == n.key && ValidAt(x, now)
  }

  /** A record with exactly `n`'s primary key (the count before a create). */
  predicate HasSamePk(rows: seq<Row>, n: Row) {
    exists x {:trigger x in rows} :: x in rows && Pk(x) == Pk(n)
  }

  /**
   * What one iteration creates for the related record `r`, given the table as
   * it stands: nothing when a current record with the same key exists (dated
   * entities only) or when the exact primary key is taken, else the copy.
   */
  function CloneOf(rows: seq<Row>, r: Row, field: string, tgt: string, now: int): (c: Option<Row>)
    ensures c.Some? <==>
      && (r.fromDate.Some? ==> !HasCurrentMatch(rows, CloneTo(r, field, tgt, now), now))
      && !HasSamePk(rows, CloneTo(r, field, tgt, now))
    ensures c.Some? ==> c.value == CloneTo(r, field, tgt, now)
  {
    var n := CloneTo(r, field, tgt, now);
    if r.fromDate.Some? && HasCurrentMatch(rows, n, now) then None
    else if HasSamePk(rows, n) then None
    else Some(n)
  }

  /** A row the pass may have created: keyed to `tgt`, and starting `now` when dated. */
  predicate IsCopyFor(n: Row, field: string, tgt: string, now: int) {
    KeyedTo(n, field, tgt) && (n.fromDate.None? || n.fromDate == Some(now))
  }

  /** `n` is the copy of one of the `related` records. */
  predicate CopiedFrom(n: Row, related: seq<Row>, field: string, tgt: string, now: int) {
    exists x {:trigger x in related} :: x in related && n == CloneTo(x, field, tgt, now)
  }

  /** One iteration of the copying loop on the table as it stands. */
  function DupStep(rows: seq<Row>, r: Row, field: string, tgt: string, now: int): seq<Row> {
    match CloneOf(rows, r, field, tgt, now)
    case None => rows
    case Some(n) => rows + [n]
  }

  /**
   * The copying loop over `related`, in order, on the table `rows`. The table
   * only grows; each created row is a copy keyed to `tgt`, takes no primary
   * key already present before it, and, when dated, had no current record of
   * its key before it.
   */
  function DupFold(rows: seq<Row>, related: seq<Row>, field: string, tgt: string, now: int): (r: seq<Row>)
    ensures rows <= r && |r| <= |rows| + |related|
    ensures forall i :: |rows| <= i < |r| ==> IsCopyFor(r[i], field, tgt, now)
    ensures forall i :: |rows| <= i < |r| ==> CopiedFrom(r[i], related, field, tgt, now)
    ensures forall i :: |rows| <= i < |r| ==> !HasSamePk(r[..i], r[i])
    ensures forall i :: |rows| <= i < |r| && r[i].fromDate.Some? ==> !HasCurrentMatch(r[..i], r[i], now)
    decreases |related|
  {
    if related == [] then rows
    else
      var init := related[..|related| - 1];
      var last := related[|related| - 1];
      var prev := DupFold(rows, init, field, tgt, now);
      assert forall x {:trigger x in init} :: x in init ==> x in related;
      match CloneOf(prev, last, field, tgt, now)
      case None => prev
      case Some(n) =>
        var next := prev + [n];
        assert forall i :: |rows| <= i < |prev| ==> next[i] == prev[i] && next[..i] == prev[..i];
        assert next[..|prev|] == prev && last in related;
        next
  }

  lemma DupFoldSnoc(rows: seq<Row>, related: seq<Row>, i: nat, field: string, tgt: string, now: int)
    requires i < |related|
    ensures DupFold(rows, related[..i + 1], field, tgt, now)
         == DupStep(DupFold(rows, related[..i], field, tgt, now), related[i], field, tgt, now)
  {
    assert related[..i + 1][..i] == related[..i];
  }

  /** The whole procedure on one table; test mode writes nothing. */
  function DupRelated(rows: seq<Row>, field: string, src: string, tgt: string, now: int,
                      removeOld: bool, test: bool): (r: seq<Row>)
    ensures test ==> r == rows
    ensures !test && removeOld ==> forall x {:trigger x in r} :: x in r ==> !KeyedTo(x, field, src)
    ensures !test && !removeOld ==> rows <= r
    ensures forall x {:trigger x in rows, KeyedTo(x, field, src)} :: x in rows && !KeyedTo(x, field, src) ==> x in r
  {
    if test then rows
    else
      var copied := DupFold(rows, RelatedList(rows, field, src, now), field, tgt, now);
      assert forall x {:trigger x in rows} :: x in rows ==> x in copied;
      assert forall x :: NotRelatedTo(field, src)(x) == !KeyedTo(x, field, src);
      if removeOld then Filter(copied, NotRelatedTo(field, src)) else copied
  }

  /** Every record of `rows` that is not a record of the relation is kept, in order. */
  lemma DupRelatedKeepsOthers(rows: seq<Row>, field: string, src: string, tgt: string, now: int,
                              removeOld: bool, test: bool)
    ensures Filter(DupRelated(rows, field, src, tgt, now, removeOld, test), NotRelatedTo(field, src))
         == Filter(rows, NotRelatedTo(field, src)) + (if test then [] else
              Filter(DupFold(rows, RelatedList(rows, field, src, now), field, tgt, now)[|rows|..], NotRelatedTo(field, src)))
  {
    if !test {
      var copied := DupFold(rows, RelatedList(rows, field, src, now), field, tgt, now);
      assert copied == rows + copied[|rows|..];
      FilterAppend(rows, copied[|rows|..], NotRelatedTo(field, src));
      if removeOld {
        FilterStronger(copied, NotRelatedTo(field, src), NotRelatedTo(field, src));
      }
    }
  }

  /**
   * `n` is accounted for in `rows`: a record with its key that is in effect now
   * or starts when it would, for a dated entity; a record with its primary key
   * otherwise.
   */
  predicate Covered(rows: seq<Row>, n: Row, now: int) {
    if n.fromDate.Some? then exists x {:trigger x in rows} :: x in rows && x.key == n.key && (ValidAt(x, now) || x.fromDate == n.fromDate)
    else HasSamePk(rows, n)
  }

  lemma CoveredGrows(rows: seq<Row>, more: seq<Row>, n: Row, now: int)
    requires Covered(rows, n, now)
    ensures Covered(rows + more, n, now)
  {
    if n.fromDate.Some? {
      var x :| x in rows && x.key == n.key && (ValidAt(x, now) || x.fromDate == n.fromDate);
      assert x in rows + more;
    } else {
      var x :| x in rows && Pk(x) == Pk(n);
      assert x in rows + more;
    }
  }

  /** The record one iteration handles is accounted for afterwards. */
  lemma DupStepCovers(rows: seq<Row>, r: Row, field: string, tgt: string, now: int)
    ensures Covered(DupStep(rows, r, field, tgt, now), CloneTo(r, field, tgt, now), now)
  {
    var n := CloneTo(r, field, tgt, now);
    var after := DupStep(rows, r, field, tgt, now);
    if after == rows {
      if n.fromDate.Some? && !HasCurrentMatch(rows, n, now) {
        var x :| x in rows && Pk(x) == Pk(n);
        assert x.key == n.key && x.fromDate == n.fromDate;
      }
    } else {
      assert after == rows + [n];
      assert n in after;
      assert n.key == n.key && n.fromDate == n.fromDate;
    }
  }

  /**
   * After the copying loop every related record is accounted for under
   * `tgt`: copied, or skipped because the target already had it.
   */
  lemma {:induction false} DupFoldCovers(rows: seq<Row>, related: seq<Row>, field: string, tgt: string, now: int)
    ensures forall k :: 0 <= k < |related| ==>
      Covered(DupFold(rows, related, field, tgt, now), CloneTo(related[k], field, tgt, now), now)
    decreases |related|
  {
    if related != [] {
      var init := related[..|related| - 1];
      DupFoldCovers(rows, init, field, tgt, now);
      forall k | 0 <= k < |related|
        ensures Covered(DupFold(rows, related, field, tgt, now), CloneTo(related[k], field, tgt, now), now)
      {
        if k < |related| - 1 {
          assert init[k] == related[k];
        }
        DupFoldCoversOne(rows, related, k, field, tgt, now);
      }
    }
  }

  /** One more iteration keeps record `k` accounted for, or accounts for it when it is the last. */
  lemma DupFoldCoversOne(rows: seq<Row>, related: seq<Row>, k: nat, field: string, tgt: string, now: int)
    requires k < |related|
    requires k < |related| - 1 ==>
      Covered(DupFold(rows, related[..|related| - 1], field, tgt, now), CloneTo(related[k], field, tgt, now), now)
    ensures Covered(DupFold(rows, related, field, tgt, now), CloneTo(related[k], field, tgt, now), now)
  {
    var prev := DupFold(rows, related[..|related| - 1], field, tgt, now);
    var after := DupStep(prev, related[|related| - 1], field, tgt, now);
    assert DupFold(rows, related, field, tgt, now) == after;
    if k == |related| - 1 {
      DupStepCovers(prev, related[k], field, tgt, now);
    } else {
      assert prev + after[|prev|..] == after;
      CoveredGrows(prev, after[|prev|..], CloneTo(related[k], field, tgt, now), now);
    }
  }

  /**
   * Copies change only `field`: when no record was keyed to `v` under another
   * key field `f`, none is afterwards.
   */
  lemma DupRelatedKeepsOtherKeys(rows: seq<Row>, field: string, src: string, tgt: string, now: int,
                                 removeOld: bool, test: bool, f: string, v: string)
    requires f != field
    requires forall x {:trigger x in rows} :: x in rows ==> !KeyedTo(x, f, v)
    ensures forall x {:trigger x in DupRelated(rows, field, src, tgt, now, removeOld, test)} ::
      x in DupRelated(rows, field, src, tgt, now, removeOld, test) ==> !KeyedTo(x, f, v)
  {
    if !test {
      var related := RelatedList(rows, field, src, now);
      var copied := DupFold(rows, related, field, tgt, now);
      forall x | x in copied
        ensures !KeyedTo(x, f, v)
      {
        var i :| 0 <= i < |copied| && copied[i] == x;
        if i < |rows| {
          assert x == rows[i];
          assert x in rows;
        } else {
          assert CopiedFrom(copied[i], related, field, tgt, now);
          var y :| y in related && x == CloneTo(y, field, tgt, now);
          assert y in rows;
          assert f in x.key ==> f in y.key && x.key[f] == y.key[f];
        }
      }
    }
  }

  /**
   * Every record of `src` in effect now has a counterpart keyed to `tgt`
   * afterwards: the same key with `field` set to `tgt` and, for a dated
   * entity, in effect now or starting now.
   */
  lemma DupRelatedCarriesOver(rows: seq<Row>, field: string, src: string, tgt: string, now: int,
                              removeOld: bool, m: Row)
    requires src != tgt
    requires m in rows && KeyedTo(m, field, src) && ValidAt(m, now)
    ensures exists x {:trigger x in DupRelated(rows, field, src, tgt, now, removeOld, false)} ::
      && x in DupRelated(rows, field, src, tgt, now, removeOld, false)
      && x.key == m.key[field := tgt]
      && (m.fromDate.Some? ==> ValidAt(x, now) || x.fromDate == Some(now))
  {
    var related := RelatedList(rows, field, src, now);
    var copied := DupFold(rows, related, field, tgt, now);
    var after := DupRelated(rows, field, src, tgt, now, removeOld, false);
    assert m in related;
    var k :| 0 <= k < |related| && related[k] == m;
    DupFoldCovers(rows, related, field, tgt, now);
    var n := CloneTo(m, field, tgt, now);
    assert Covered(copied, n, now);
    var x: Row;
    if n.fromDate.Some? {
      x :| x in copied && x.key == n.key && (ValidAt(x, now) || x.fromDate == n.fromDate);
    } else {
      x :| x in copied && Pk(x) == Pk(n);
    }
    assert KeyedTo(x, field, tgt);
    assert NotRelatedTo(field, src)(x);
    assert x in after;
  }

  /** The lookup by key minus fromDate, in effect now. */
  function SameKeyCurrent(key: Fields, now: int): Row -> bool {
    (x: Row) => x.key == key && ValidAt(x, now)
  }

  function SamePk(pk: PrimaryKey): Row -> bool {
    (x: Row) => Pk(x) == pk
  }

  /** The procedure (ProductUtilServices.duplicateRelated) applied to one table. */
  method DuplicateRelated(rows: seq<Row>, field: string, src: string, tgt: string, now: int,
                          removeOld: bool, test: bool) returns (out: seq<Row>)
    ensures out == DupRelated(rows, field, src, tgt, now, removeOld, test)
  {
    var relatedList := RelatedList(rows, field, src, now);
    out := rows;
    for i := 0 to |relatedList|
      invariant out == if test then rows else DupFold(rows, relatedList[..i], field, tgt, now)
    {
      DupFoldSnoc(rows, relatedList, i, field, tgt, now);
      var n := CloneTo(relatedList[i], field, tgt, now);
      if relatedList[i].fromDate.Some? {
        var existing := Filter(out, SameKeyCurrent(n.key, now));
        FilterEmpty(out, SameKeyCurrent(n.key, now));
        if |existing| > 0 {
          continue;
        }
      }
      var sameKey := Filter(out, SamePk(Pk(n)));
      FilterEmpty(out, SamePk(Pk(n)));
      if |sameKey| == 0 && !test {
        out := out + [n];
      }
    }
    assert relatedList[..|relatedList|] == relatedList;
    if removeOld && !test {
      out := Filter(out, NotRelatedTo(field, src));
    }
  }
}
