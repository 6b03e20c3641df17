/** Records of the entity store and the date filter every pass shares. */
module Records {

  datatype Option<T> = None | Some(value: T)

  /** Field name to value; a name that is absent is a null field. */
  type Fields = map<string, string>

  /**
   * One record of a time-scoped relation table. `key` holds the primary-key
   * fields other than `fromDate`; `fromDate` is None exactly for the entities
   * that have no such field (GoodIdentification, ProductAttribute, ...), and
   * `data` holds the remaining non-key fields.
   */
  datatype Row = Row(key: Fields, fromDate: Option<int>, thruDate: Option<int>, data: Fields)

  /** The primary key of a row: its key fields and its fromDate. */
  datatype PrimaryKey = PrimaryKey(fields: Fields, fromDate: Option<int>)

  function Pk(r: Row): PrimaryKey {
    PrimaryKey(r.key, r.fromDate)
  }

  /** The value of key field `name`, or "" when the row has none. */
  function Field(r: Row, name: string): string {
    if name in r.key then r.key[name] else ""
  }

  /** The row's key field `name` holds `value` (the relation `getRelated` follows). */
  predicate KeyedTo(r: Row, name: string, value: string) {
    name in r.key && r.key[name] == value
  }

  /**
   * The date filter: a record is in effect at `moment` when it started at or
   * before it (or has no start) and has not ended before it. Both ends are
   * inclusive, as in the inline conditions of the store queries.
   */
  predicate ValidAt(r: Row, moment: int) {
    && (r.fromDate.None? || r.fromDate.value <= moment)
    && (r.thruDate.None? || moment <= r.thruDate.value)
  }

  /** The rows satisfying `p`, in table order. */
  function Filter(rows: seq<Row>, p: Row -> bool): (r: seq<Row>)
    ensures |r| <= |rows|
    ensures forall x {:trigger x in r} :: x in r ==> x in rows && p(x)
    ensures forall x {:trigger x in rows, p(x)} :: x in rows && p(x) ==> x in r
  {
    if rows == [] then []
    else
      var init := rows[..|rows| - 1];
      var last := rows[|rows| - 1];
      assert rows == init + [last];
      assert forall x {:trigger x in rows} :: x in rows ==> x in init || x == last;
      Filter(init, p) + (if p(last) then [last] else [])
  }

  /** EntityUtil.filterByDate: the records in effect at `moment`, in order. */
  function FilterByDate(rows: seq<Row>, moment: int): (r: seq<Row>)
    ensures forall x {:trigger x in r} :: x in r ==> x in rows && ValidAt(x, moment)
    ensures forall x {:trigger x in rows, ValidAt(x, moment)} :: x in rows && ValidAt(x, moment) ==> x in r
  {
    var r := Filter(rows, x => ValidAt(x, moment));
    assert forall x {:trigger x in rows} :: (x => ValidAt(x, moment))(x) == ValidAt(x, moment);
    r
  }

  lemma {:induction false} FilterAppend(a: seq<Row>, b: seq<Row>, p: Row -> bool)
    ensures Filter(a + b, p) == Filter(a, p) + Filter(b, p)
    decreases |b|
  {
    if b == [] {
      assert a + b == a;
    } else {
      var b' := b[..|b| - 1];
      assert (a + b)[..|a + b| - 1] == a + b';
      assert b[..|b| - 1] == b';
      FilterAppend(a, b', p);
    }
  }

  /** Filtering twice by two predicates is filtering once by their conjunction. */
  lemma {:induction false} FilterFilter(rows: seq<Row>, p: Row -> bool, q: Row -> bool, pq: Row -> bool)
    requires forall x :: pq(x) == (p(x) && q(x))
    ensures Filter(Filter(rows, p), q) == Filter(rows, pq)
    decreases |rows|
  {
    if rows != [] {
      var init := rows[..|rows| - 1];
      var last := rows[|rows| - 1];
      FilterFilter(init, p, q, pq);
      FilterAppend(Filter(init, p), if p(last) then [last] else [], q);
      if p(last) {
        assert Filter([last], q) == Filter([], q) + (if q(last) then [last] else []);
      } else {
        assert Filter([], q) == [];
      }
    }
  }

  /** Two predicates that agree on every row of the table filter it alike. */
  lemma {:induction false} FilterCongruent(rows: seq<Row>, p: Row -> bool, q: Row -> bool)
    requires forall x :: x in rows ==> p(x) == q(x)
    ensures Filter(rows, p) == Filter(rows, q)
    decreases |rows|
  {
    if rows != [] {
      FilterCongruent(rows[..|rows| - 1], p, q);
    }
  }

  /** Two tables of equal length that differ only at rows neither filter keeps filter alike. */
  lemma {:induction false} FilterPointwise(s: seq<Row>, t: seq<Row>, p: Row -> bool)
    requires |s| == |t|
    requires forall i :: 0 <= i < |s| && (p(s[i]) || p(t[i])) ==> s[i] == t[i]
    ensures Filter(s, p) == Filter(t, p)
    decreases |s|
  {
    if s != [] {
      FilterPointwise(s[..|s| - 1], t[..|t| - 1], p);
    }
  }

  /** A filter that keeps nothing leaves no row satisfying its predicate. */
  lemma FilterEmpty(rows: seq<Row>, p: Row -> bool)
    ensures Filter(rows, p) == [] <==> forall x :: x in rows ==> !p(x)
  {
    if Filter(rows, p) != [] {
      assert Filter(rows, p)[0] in Filter(rows, p);
    }
  }

  lemma {:induction false} FilterCons(x: Row, rest: seq<Row>, p: Row -> bool)
    ensures Filter([x] + rest, p) == (if p(x) then [x] else []) + Filter(rest, p)
    decreases |rest|
  {
    if rest == [] {
      assert [x] + rest == [x];
      assert [x][..0] == [];
    } else {
      var init := rest[..|rest| - 1];
      assert ([x] + rest)[..|[x] + rest| - 1] == [x] + init;
      FilterCons(x, init, p);
    }
  }

  /** A filter every row passes keeps the table as it is. */
  lemma {:induction false} FilterAll(rows: seq<Row>, p: Row -> bool)
    requires forall x :: x in rows ==> p(x)
    ensures Filter(rows, p) == rows
    decreases |rows|
  {
    if rows != [] {
      FilterAll(rows[..|rows| - 1], p);
    }
  }

  /** A stronger predicate keeps no more rows. */
  lemma FilterStronger(rows: seq<Row>, p: Row -> bool, q: Row -> bool)
    requires forall x :: p(x) ==> q(x)
    ensures Filter(Filter(rows, q), p) == Filter(rows, p)
    ensures |Filter(rows, p)| <= |Filter(rows, q)|
  {
    FilterFilter(rows, q, p, p);
  }
}
