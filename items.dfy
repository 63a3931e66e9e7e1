/**
 * The shape of one response item: a `LinkedHashMap<String, Any>` with the
 * keys `year`, `month`, `amount` and `type`, followed by `full_name` and
 * `created_at` only when the row's author columns are non-null. The keys are
 * the members of `ItemKey`, whose `Text` is the string the map uses, so an
 * item has no key besides these six.
 */
module Items {
  import opened Wrappers
  import opened Int32
  import opened BudgetRows
  import opened LinkedMaps

  /** The values an item holds: an `Int`, the `BudgetType` itself, or a string. */
  datatype Value = IntValue(i: int32) | TypeValue(t: BudgetType) | TextValue(s: string)

  /** The six keys an item may have. */
  datatype ItemKey = Year | Month | Amount | Type | FullName | CreatedAt {
    /** The key's text in the response. */
    function Text(): string
    {
      match this
      case Year => "year"
      case Month => "month"
      case Amount => "amount"
      case Type => "type"
      case FullName => "full_name"
      case CreatedAt => "created_at"
    }
  }

  type Item = seq<(ItemKey, Value)>

  /** The item for a row, entry by entry in insertion order. */
  function Shaped(rec: BudgetWithAuthor): Item
  {
    [(Year, IntValue(rec.year)), (Month, IntValue(rec.month)),
     (Amount, IntValue(rec.amount)), (Type, TypeValue(rec.budgetType))]
    + (if rec.authorFullName.Some? then [(FullName, TextValue(rec.authorFullName.value))] else [])
    + (if rec.authorCreatedAt.Some? then [(CreatedAt, TextValue(rec.authorCreatedAt.value))] else [])
  }

  /** The keys of an item, in insertion order. */
  lemma ShapedKeys(rec: BudgetWithAuthor)
    ensures Keys(Shaped(rec)) == [Year, Month, Amount, Type]
      + (if rec.authorFullName.Some? then [FullName] else [])
      + (if rec.authorCreatedAt.Some? then [CreatedAt] else [])
    ensures Distinct(Keys(Shaped(rec)))
  {
    var fixed: Item := [(Year, IntValue(rec.year)), (Month, IntValue(rec.month)),
                        (Amount, IntValue(rec.amount)), (Type, TypeValue(rec.budgetType))];
    var fixedKeys: seq<ItemKey> := [Year, Month, Amount, Type];
    assert Keys(fixed) == fixedKeys;
    var named, namedKeys := fixed, fixedKeys;
    if rec.authorFullName.Some? {
      named, namedKeys := fixed + [(FullName, TextValue(rec.authorFullName.value))], fixedKeys + [FullName];
      LookupAppend(fixed, [(FullName, TextValue(rec.authorFullName.value))], Year);
    }
    assert Distinct(namedKeys) && Keys(named) == namedKeys;
    var all, allKeys := named, namedKeys;
    if rec.authorCreatedAt.Some? {
      all, allKeys := named + [(CreatedAt, TextValue(rec.authorCreatedAt.value))], namedKeys + [CreatedAt];
      LookupAppend(named, [(CreatedAt, TextValue(rec.authorCreatedAt.value))], Year);
      DistinctAppend(namedKeys, [CreatedAt]);
    }
    assert Shaped(rec) == all;
  }

  /** `year`, `month`, `amount` and `type` are the row's own values. */
  lemma ShapedColumns(rec: BudgetWithAuthor)
    ensures Lookup(Shaped(rec), Year) == Some(IntValue(rec.year))
    ensures Lookup(Shaped(rec), Month) == Some(IntValue(rec.month))
    ensures Lookup(Shaped(rec), Amount) == Some(IntValue(rec.amount))
    ensures Lookup(Shaped(rec), Type) == Some(TypeValue(rec.budgetType))
  {
    var m := Shaped(rec);
    ShapedKeys(rec);
    assert m[2] == (Amount, IntValue(rec.amount)) && m[3] == (Type, TypeValue(rec.budgetType));
    LookupFinds(m, Amount);
    LookupFinds(m, Type);
  }

  /** `full_name` and `created_at` hold the author's columns, and are absent when those are null. */
  lemma ShapedAuthorColumns(rec: BudgetWithAuthor)
    ensures Lookup(Shaped(rec), FullName) ==
      (if rec.authorFullName.Some? then Some(TextValue(rec.authorFullName.value)) else None)
    ensures Lookup(Shaped(rec), CreatedAt) ==
      (if rec.authorCreatedAt.Some? then Some(TextValue(rec.authorCreatedAt.value)) else None)
  {
    var m := Shaped(rec);
    ShapedKeys(rec);
    LookupFinds(m, FullName);
    LookupFinds(m, CreatedAt);
    if rec.authorFullName.Some? {
      assert m[4] == (FullName, TextValue(rec.authorFullName.value));
    }
    if rec.authorCreatedAt.Some? {
      assert m[|m| - 1] == (CreatedAt, TextValue(rec.authorCreatedAt.value));
    }
  }

  /**
   * An item holds each key at most once; `year`, `month`, `amount` and `type`
   * are always there with the row's values, `full_name` and `created_at`
   * exactly when the author columns are non-null, with their values.
   */
  lemma ShapedItem(rec: BudgetWithAuthor)
    ensures Distinct(Keys(Shaped(rec)))
    ensures Lookup(Shaped(rec), Year) == Some(IntValue(rec.year))
    ensures Lookup(Shaped(rec), Month) == Some(IntValue(rec.month))
    ensures Lookup(Shaped(rec), Amount) == Some(IntValue(rec.amount))
    ensures Lookup(Shaped(rec), Type) == Some(TypeValue(rec.budgetType))
    ensures Lookup(Shaped(rec), FullName) ==
      (if rec.authorFullName.Some? then Some(TextValue(rec.authorFullName.value)) else None)
    ensures Lookup(Shaped(rec), CreatedAt) ==
      (if rec.authorCreatedAt.Some? then Some(TextValue(rec.authorCreatedAt.value)) else None)
  {
    ShapedKeys(rec);
    ShapedColumns(rec);
    ShapedAuthorColumns(rec);
  }

  /** Different keys have different texts. */
  lemma TextInjective(a: ItemKey, b: ItemKey)
    ensures a.Text() == b.Text() <==> a == b
  {
  }

  /** So the string keys of an item, the keys of the `LinkedHashMap`, are distinct as well. */
  lemma ShapedTextKeys(rec: BudgetWithAuthor)
    ensures var ks := Keys(Shaped(rec));
      forall i, j :: 0 <= i < j < |ks| ==> ks[i].Text() != ks[j].Text()
  {
    var ks := Keys(Shaped(rec));
    ShapedKeys(rec);
    forall i, j | 0 <= i < j < |ks| ensures ks[i].Text() != ks[j].Text() {
      TextInjective(ks[i], ks[j]);
    }
  }
}
