/**
 * The `where` objects of `getEmployees` and `getTotalEmployees`
 * (Problem5/src/services/employee.service.ts): substring filters on name and
 * email, and the row count under the same filter.
 */
module Filters {
  import opened Wrappers
  import opened Employees

  /** The `{ name, email }` filter object; a missing query parameter is `None`. */
  datatype Filter = Filter(name: Option<string>, email: Option<string>)

  /** JavaScript truthiness of an optional string: present and non-empty. */
  predicate Truthy(o: Option<string>) {
    o.Some? && o.value != ""
  }

  predicate IsPrefix(p: string, s: string) {
    |p| <= |s| && s[..|p|] == p
  }

  /** `contains`: `needle` occurs in `hay` (searching from the front). */
  predicate Contains(hay: string, needle: string)
    decreases |hay|
  {
    IsPrefix(needle, hay) || (hay != [] && Contains(hay[1..], needle))
  }

  /** `needle` occurs in `hay` starting at position `k`. */
  predicate OccursAt(hay: string, needle: string, k: int) {
    0 <= k <= |hay| - |needle| && hay[k..k + |needle|] == needle
  }

  /** The search agrees with "`needle` occurs at some position of `hay`", both ways. */
  lemma {:induction false} ContainsIffOccurs(hay: string, needle: string)
    ensures Contains(hay, needle) <==> exists k :: OccursAt(hay, needle, k)
    decreases |hay|
  {
    if IsPrefix(needle, hay) {
      assert OccursAt(hay, needle, 0);
    } else if hay == [] {
    } else {
      ContainsIffOccurs(hay[1..], needle);
      if exists k :: OccursAt(hay, needle, k) {
        var k :| OccursAt(hay, needle, k);
        assert k != 0;
        assert OccursAt(hay[1..], needle, k - 1);
      }
      if Contains(hay[1..], needle) {
        var k :| OccursAt(hay[1..], needle, k);
        assert OccursAt(hay, needle, k + 1);
      }
    }
  }

  /**
   * The row predicate shared by the list and the count: a filter constrains
   * only when it is truthy, and then by substring containment.
   */
  predicate Matches(e: Employee, f: Filter)
    ensures Matches(e, f) <==>
      && (Truthy(f.name) ==> exists k :: OccursAt(e.name, f.name.value, k))
      && (Truthy(f.email) ==> exists k :: OccursAt(e.email, f.email.value, k))
  {
    && (if Truthy(f.name) then ContainsIffOccurs(e.name, f.name.value); Contains(e.name, f.name.value) else true)
    && (if Truthy(f.email) then ContainsIffOccurs(e.email, f.email.value); Contains(e.email, f.email.value) else true)
  }

  /** The ids of the rows that pass the filter. */
  function MatchIds(t: Table, f: Filter): (ids: set<string>)
    ensures ids <= t.Keys
    ensures forall id :: id in ids <==> id in t && Matches(t[id], f)
  {
    set id | id in t && Matches(t[id], f)
  }

  /** The rows among `ids` that pass the filter. */
  function RowsAmong(t: Table, f: Filter, ids: set<string>): set<Employee> {
    set id | id in ids && id in t && Matches(t[id], f) :: t[id]
  }

  lemma {:induction false} CardinalityOfSubset<T>(a: set<T>, b: set<T>)
    requires a <= b
    ensures |a| <= |b|
    decreases |b|
  {
    if a != {} {
      var x :| x in a;
      CardinalityOfSubset(a - {x}, b - {x});
    }
  }

  /** `getTotalEmployees`: the number of rows the filter accepts. */
  function CountMatching(t: Table, f: Filter): (n: nat)
    ensures n <= |t|
    ensures n == |MatchIds(t, f)|
  {
    CardinalityOfSubset(MatchIds(t, f), t.Keys);
    |MatchIds(t, f)|
  }

  /** A missing or empty filter value constrains nothing, so the count is the table size. */
  lemma {:induction false} FalsyFilterCountsAll(t: Table, f: Filter)
    requires !Truthy(f.name) && !Truthy(f.email)
    ensures CountMatching(t, f) == |t|
  {
    assert MatchIds(t, f) == t.Keys;
  }

  /** Adding a matching id adds its row, which no other id of a well-keyed table yields. */
  lemma RowsAmongAddMatch(t: Table, f: Filter, rest: set<string>, x: string)
    requires WellKeyed(t) && x in t && Matches(t[x], f) && x !in rest
    ensures RowsAmong(t, f, rest + {x}) == RowsAmong(t, f, rest) + {t[x]}
    ensures t[x] !in RowsAmong(t, f, rest)
    ensures (rest + {x}) * MatchIds(t, f) == rest * MatchIds(t, f) + {x}
  {
  }

  /** Adding an id that is absent or does not match adds nothing. */
  lemma RowsAmongAddMiss(t: Table, f: Filter, rest: set<string>, x: string)
    requires !(x in t && Matches(t[x], f))
    ensures RowsAmong(t, f, rest + {x}) == RowsAmong(t, f, rest)
    ensures (rest + {x}) * MatchIds(t, f) == rest * MatchIds(t, f)
  {
  }

  /**
   * In a well-keyed table, rows and ids are in one-to-one correspondence, so
   * the number of matching rows equals the count.
   */
  lemma {:induction false} RowsAmongSize(t: Table, f: Filter, ids: set<string>)
    requires WellKeyed(t)
    ensures |RowsAmong(t, f, ids)| == |ids * MatchIds(t, f)|
    decreases |ids|
  {
    if ids != {} {
      var x :| x in ids;
      var rest := ids - {x};
      assert ids == rest + {x};
      RowsAmongSize(t, f, rest);
      if x in t && Matches(t[x], f) {
        RowsAmongAddMatch(t, f, rest, x);
      } else {
        RowsAmongAddMiss(t, f, rest, x);
      }
    } else {
      assert RowsAmong(t, f, ids) == {};
    }
  }

  /** The matching rows of the whole table number exactly `CountMatching`. */
  lemma CountIsRows(t: Table, f: Filter)
    requires WellKeyed(t)
    ensures |RowsAmong(t, f, t.Keys)| == CountMatching(t, f)
  {
    RowsAmongSize(t, f, t.Keys);
    assert t.Keys * MatchIds(t, f) == MatchIds(t, f);
  }
}
