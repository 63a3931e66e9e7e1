/**
 * `query.groupBy { it.type.name }.mapValues { it.value.sumOf { v -> v.amount } }`.
 *
 * `groupBy` builds a `LinkedHashMap`: its entries are kept as an association
 * list in insertion order. Each row is appended to the group of its type's
 * name, and a group is opened at the end the first time a name is seen.
 * `sumOf` adds the amounts with Kotlin's wrapping `Int` addition.
 */
module TypeTotals {
  import opened Wrappers
  import opened Int32
  import opened BudgetRows
  import opened LinkedMaps

  type Group = (string, seq<BudgetWithAuthor>)

  /** The grouping key, `it.type.name`. */
  function KeyOf(rec: BudgetWithAuthor): string
  {
    rec.budgetType.Name()
  }

  /** Some row of `s` has a type named `k`. */
  ghost predicate HasType(s: seq<BudgetWithAuthor>, k: string)
  {
    exists r :: r in s && KeyOf(r) == k
  }

  /** The rows of `s` whose type is named `k`, in their order. */
  function OfType(s: seq<BudgetWithAuthor>, k: string): seq<BudgetWithAuthor>
  {
    if s == [] then []
    else
      var last := s[|s| - 1];
      OfType(s[..|s| - 1], k) + (if KeyOf(last) == k then [last] else [])
  }

  /** The rows of `s` of the category `t`, in their order. */
  function OfCategory(s: seq<BudgetWithAuthor>, t: BudgetType): seq<BudgetWithAuthor>
  {
    if s == [] then []
    else
      var last := s[|s| - 1];
      OfCategory(s[..|s| - 1], t) + (if last.budgetType == t then [last] else [])
  }

  /** The exact (unbounded) sum of the amounts of `s`. */
  function AmountTotal(s: seq<BudgetWithAuthor>): int
  {
    if s == [] then 0 else AmountTotal(s[..|s| - 1]) + s[|s| - 1].amount as int
  }

  /** `sumOf { v -> v.amount }`: a left-to-right sum in wrapping 32-bit arithmetic. */
  function SumOf(s: seq<BudgetWithAuthor>): int32
  {
    if s == [] then 0 else Add(SumOf(s[..|s| - 1]), s[|s| - 1].amount)
  }

  /** One step of `groupBy`: `getOrPut(key) { ArrayList() }.add(rec)`. */
  function Insert(g: seq<Group>, k: string, rec: BudgetWithAuthor): seq<Group>
  {
    if g == [] then [(k, [rec])]
    else if g[0].0 == k then [(k, g[0].1 + [rec])] + g[1..]
    else [g[0]] + Insert(g[1..], k, rec)
  }

  /** `groupBy { it.type.name }`, one row after the other. */
  function GroupBy(s: seq<BudgetWithAuthor>): seq<Group>
  {
    if s == [] then [] else Insert(GroupBy(s[..|s| - 1]), KeyOf(s[|s| - 1]), s[|s| - 1])
  }

  /** `mapValues { it.value.sumOf { v -> v.amount } }`. */
  function TotalsOf(g: seq<Group>): seq<(string, int32)>
  {
    seq(|g|, i requires 0 <= i < |g| => (g[i].0, SumOf(g[i].1)))
  }

  /** `totalByType` for the rows `s`. */
  function SumByType(s: seq<BudgetWithAuthor>): seq<(string, int32)>
  {
    TotalsOf(GroupBy(s))
  }

  /** The exact sum of the amounts of all groups. */
  function GroupsTotal(g: seq<Group>): int
  {
    if g == [] then 0 else AmountTotal(g[0].1) + GroupsTotal(g[1..])
  }

  /** The exact sum of the values of an association list. */
  function ValuesTotal(e: seq<(string, int32)>): int
  {
    if e == [] then 0 else e[0].1 as int + ValuesTotal(e[1..])
  }

  /** Kotlin's wrapping sum is the exact sum reduced to 32 bits. */
  lemma {:induction false} SumOfWraps(s: seq<BudgetWithAuthor>)
    ensures SumOf(s) == Wrap(AmountTotal(s))
  {
    if s != [] {
      SumOfWraps(s[..|s| - 1]);
      WrapAddLeft(AmountTotal(s[..|s| - 1]), s[|s| - 1].amount as int);
    }
  }

  /** Without overflow of any partial sum, `sumOf` is the exact sum. */
  lemma {:induction false} SumOfExact(s: seq<BudgetWithAuthor>)
    requires forall n :: 0 <= n <= |s| ==> -TWO_31 <= AmountTotal(s[..n]) < TWO_31
    ensures SumOf(s) as int == AmountTotal(s)
  {
    if s != [] {
      var p := s[..|s| - 1];
      forall n | 0 <= n <= |p| ensures -TWO_31 <= AmountTotal(p[..n]) < TWO_31 {
        assert p[..n] == s[..n];
      }
      SumOfExact(p);
      assert s[..|s|] == s;
    }
  }

  /** The rows of a type no row has form the empty list. */
  lemma {:induction false} OfTypeAbsent(s: seq<BudgetWithAuthor>, k: string)
    requires !HasType(s, k)
    ensures OfType(s, k) == []
  {
    if s != [] {
      var p := s[..|s| - 1];
      assert forall r :: r in p ==> r in s;
      OfTypeAbsent(p, k);
      assert s[|s| - 1] in s;
    }
  }

  /** One step of `groupBy` keeps the keys distinct and adds `k` at the end if it was new. */
  lemma {:induction false} InsertKeys(g: seq<Group>, k: string, rec: BudgetWithAuthor)
    requires Distinct(Keys(g))
    ensures Keys(Insert(g, k, rec)) == if k in Keys(g) then Keys(g) else Keys(g) + [k]
    ensures Distinct(Keys(Insert(g, k, rec)))
  {
    if g != [] {
      var t := g[1..];
      assert Keys(g) == [g[0].0] + Keys(t);
      assert Distinct(Keys(t));
      if g[0].0 == k {
        assert Keys(Insert(g, k, rec)) == [k] + Keys(t);
      } else {
        InsertKeys(t, k, rec);
        assert Keys(Insert(g, k, rec)) == [g[0].0] + Keys(Insert(t, k, rec));
      }
    }
  }

  /** One step of `groupBy` appends the row to the group of `k`, or opens that group at the end. */
  lemma {:induction false} InsertGroups(g: seq<Group>, k: string, rec: BudgetWithAuthor)
    requires Distinct(Keys(g))
    ensures |Insert(g, k, rec)| == if k in Keys(g) then |g| else |g| + 1
    ensures forall j :: 0 <= j < |g| ==>
      Insert(g, k, rec)[j].1 == if g[j].0 == k then g[j].1 + [rec] else g[j].1
    ensures k !in Keys(g) ==> Insert(g, k, rec)[|g|].1 == [rec]
  {
    InsertKeys(g, k, rec);
    if g != [] {
      var t := g[1..];
      assert Keys(g) == [g[0].0] + Keys(t);
      assert Distinct(Keys(t));
      if g[0].0 != k {
        InsertGroups(t, k, rec);
        var g' := Insert(g, k, rec);
        assert g' == [g[0]] + Insert(t, k, rec);
        forall j | 0 < j < |g| ensures g'[j].1 == if g[j].0 == k then g[j].1 + [rec] else g[j].1 {
          assert g'[j] == Insert(t, k, rec)[j - 1] && g[j] == t[j - 1];
        }
      } else {
        assert k !in Keys(t);
        forall j | 0 < j < |g| ensures g[j].0 != k {
          assert Keys(t)[j - 1] == g[j].0;
        }
      }
    }
  }

  /** One step of `groupBy` adds the row's amount to the groups' total. */
  lemma {:induction false} InsertTotal(g: seq<Group>, k: string, rec: BudgetWithAuthor)
    ensures GroupsTotal(Insert(g, k, rec)) == GroupsTotal(g) + rec.amount as int
  {
    if g == [] {
      assert [rec][..0] == [];
      assert Insert(g, k, rec) == [(k, [rec])];
      assert Insert(g, k, rec)[1..] == [];
      assert AmountTotal([rec]) == rec.amount as int;
    } else if g[0].0 == k {
      var x := g[0].1;
      assert (x + [rec])[..|x|] == x;
      assert Insert(g, k, rec)[1..] == g[1..];
    } else {
      InsertTotal(g[1..], k, rec);
      assert Insert(g, k, rec)[1..] == Insert(g[1..], k, rec);
    }
  }

  /** `groupBy` opens one group per type name occurring in `s` and never two for the same name. */
  lemma {:induction false} GroupByKeys(s: seq<BudgetWithAuthor>)
    ensures Distinct(Keys(GroupBy(s)))
    ensures forall k :: k in Keys(GroupBy(s)) <==> HasType(s, k)
  {
    if s != [] {
      var p, last := s[..|s| - 1], s[|s| - 1];
      GroupByKeys(p);
      InsertKeys(GroupBy(p), KeyOf(last), last);
      assert forall r :: r in s <==> r in p || r == last;
      forall k ensures HasType(s, k) <==> HasType(p, k) || KeyOf(last) == k {
        if HasType(s, k) {
          var r :| r in s && KeyOf(r) == k;
          if r != last { assert HasType(p, k); }
        }
        if HasType(p, k) {
          var r :| r in p && KeyOf(r) == k;
          assert r in s;
        }
      }
    }
  }

  /** Each group of `groupBy` holds exactly the rows of its type, in their order. */
  lemma {:induction false} GroupByContents(s: seq<BudgetWithAuthor>)
    ensures forall i :: 0 <= i < |GroupBy(s)| ==> GroupBy(s)[i].1 == OfType(s, GroupBy(s)[i].0)
  {
    if s != [] {
      var p, last := s[..|s| - 1], s[|s| - 1];
      GroupByContents(p);
      GroupByKeys(p);
      var g, k := GroupBy(p), KeyOf(last);
      InsertKeys(g, k, last);
      InsertGroups(g, k, last);
      var g' := GroupBy(s);
      assert g' == Insert(g, k, last);
      forall i | 0 <= i < |g'| ensures g'[i].1 == OfType(s, g'[i].0) {
        var key := g'[i].0;
        assert Keys(g')[i] == key;
        assert OfType(s, key) == OfType(p, key) + (if k == key then [last] else []);
        if i == |g| {
          assert key == k && k !in Keys(g);
          OfTypeAbsent(p, k);
        } else {
          assert Keys(g)[i] == g[i].0 == key;
        }
      }
    }
  }

  /** Together the groups of `groupBy` hold every row's amount once. */
  lemma {:induction false} GroupByTotal(s: seq<BudgetWithAuthor>)
    ensures GroupsTotal(GroupBy(s)) == AmountTotal(s)
  {
    if s != [] {
      GroupByTotal(s[..|s| - 1]);
      InsertTotal(GroupBy(s[..|s| - 1]), KeyOf(s[|s| - 1]), s[|s| - 1]);
    }
  }

  /** What `mapValues` keeps: the keys, in order. */
  lemma TotalsOfKeys(g: seq<Group>)
    ensures Keys(TotalsOf(g)) == Keys(g)
  {
    var t := TotalsOf(g);
    assert forall i :: 0 <= i < |g| ==> Keys(t)[i] == Keys(g)[i];
  }

  /** Reducing every summand to 32 bits does not change the wrapped total. */
  lemma {:induction false} ValuesTotalWraps(g: seq<Group>)
    ensures Wrap(ValuesTotal(TotalsOf(g))) == Wrap(GroupsTotal(g))
  {
    if g != [] {
      var t := TotalsOf(g);
      assert t[1..] == TotalsOf(g[1..]);
      ValuesTotalWraps(g[1..]);
      var v, rest := ValuesTotal(t[1..]), GroupsTotal(g[1..]);
      var a := AmountTotal(g[0].1);
      SumOfWraps(g[0].1);
      WrapAddLeft(a, v);
      WrapAddLeft(v, a);
      WrapAddLeft(rest, a);
      assert Wrap(a + v) == Wrap(Wrap(v) as int + a);
      assert Wrap(a + rest) == Wrap(Wrap(rest) as int + a);
    }
  }

  /**
   * `totalByType` has an entry for `k` exactly when some row's type is named
   * `k`; its value is `sumOf` over the rows of that type, which is the exact
   * sum of their amounts reduced to 32 bits.
   */
  lemma SumByTypeLookup(s: seq<BudgetWithAuthor>, k: string)
    ensures Lookup(SumByType(s), k) == if HasType(s, k) then Some(Wrap(AmountTotal(OfType(s, k)))) else None
  {
    var g := GroupBy(s);
    var t := SumByType(s);
    GroupByKeys(s);
    TotalsOfKeys(g);
    LookupFinds(t, k);
    if HasType(s, k) {
      var i :| 0 <= i < |g| && Keys(g)[i] == k;
      GroupByContents(s);
      assert g[i].1 == OfType(s, k);
      SumOfWraps(g[i].1);
      assert t[i] == (k, SumOf(OfType(s, k)));
    }
  }

  /**
   * `totalByType` has one entry per type name occurring in `s` and no other,
   * each name once, with the sum of that type's amounts as its value. Its
   * values add up, in the same 32-bit arithmetic, to the sum over all rows.
   */
  lemma SumByTypeTotals(s: seq<BudgetWithAuthor>)
    ensures Distinct(Keys(SumByType(s)))
    ensures forall k :: k in Keys(SumByType(s)) <==> HasType(s, k)
    ensures forall k :: HasType(s, k) ==> Lookup(SumByType(s), k) == Some(Wrap(AmountTotal(OfType(s, k))))
    ensures Wrap(ValuesTotal(SumByType(s))) == SumOf(s)
  {
    var g := GroupBy(s);
    GroupByKeys(s);
    TotalsOfKeys(g);
    forall k | HasType(s, k) ensures Lookup(SumByType(s), k) == Some(Wrap(AmountTotal(OfType(s, k)))) {
      SumByTypeLookup(s, k);
    }
    ValuesTotalWraps(g);
    GroupByTotal(s);
    SumOfWraps(s);
  }

  /**
   * Grouping by `type.name` is grouping by category: the rows under the name
   * of `t` are the rows of category `t`, and that name occurs exactly when
   * some row has category `t`.
   */
  lemma {:induction false} OfTypeIsOfCategory(s: seq<BudgetWithAuthor>, t: BudgetType)
    ensures OfType(s, t.Name()) == OfCategory(s, t)
    ensures HasType(s, t.Name()) <==> exists r :: r in s && r.budgetType == t
  {
    forall r | r in s ensures KeyOf(r) == t.Name() <==> r.budgetType == t {
      NameInjective(r.budgetType, t);
    }
    if s != [] {
      OfTypeIsOfCategory(s[..|s| - 1], t);
      NameInjective(s[|s| - 1].budgetType, t);
    }
  }
}
