/** The table of categories: updating, committing and rolling back all of them. */
module ZlogCategoryTable {
  import opened Text
  import opened ZlogBuf
  import opened ZlogCategory

  class CategoryTable {
    /** The categories in the order the hash table walks them, each once. */
    var categories: seq<Category>

    constructor ()
      ensures categories == []
    {
      categories := [];
    }

    ghost predicate Distinct()
      reads this
    {
      forall i, j | 0 <= i < j < |categories| ::
        categories[i] != categories[j] && categories[i].name != categories[j].name
    }

    /** Every category is in use under these rules. */
    ghost predicate Settled(rules: Rules)
      reads this, categories
    {
      Distinct() && forall i | 0 <= i < |categories| :: categories[i].Settled(rules)
    }

    /** Memory enough for the list of every category. */
    ghost predicate Enough(rules: Rules, rooms: nat -> nat)
      reads this
    {
      forall i | 0 <= i < |categories| :: rooms(i) > |FitRules(rules, categories[i].name)|
    }

    /** Some category has lost its rules: a log call through it has no rules to go by. */
    ghost predicate Broken()
      reads this, categories
    {
      exists i | 0 <= i < |categories| :: categories[i].fitRules == None
    }

    /** zlog_category_table_update_rules; rooms(i) list operations succeed for the i-th category. */
    method UpdateRules(rules: Rules, rooms: nat -> nat) returns (ok: bool)
      requires Usable(rules) && Distinct()
      modifies categories
      ensures forall i | 0 <= i < |categories| :: BackedUp(categories[i].Now(), old(categories[i].Now()))
      ensures ok ==> forall i | 0 <= i < |categories| ::
        && categories[i].fitRules == Some(FitRules(rules, categories[i].name))
        && Agrees(categories[i].levelBitmap, FitRules(rules, categories[i].name))
        && categories[i].fitRulesBackup == old(categories[i].fitRules)
      ensures ok <==> Enough(rules, rooms)
      ensures !ok ==> Broken()
    {
      hide Agrees, FitRules;
      var k := 0;
      while k < |categories|
        invariant k <= |categories|
        invariant forall i | 0 <= i < k :: BackedUp(categories[i].Now(), old(categories[i].Now()))
        invariant forall i | k <= i < |categories| :: categories[i].Now() == old(categories[i].Now())
        invariant forall i | 0 <= i < k ::
          && categories[i].fitRules == Some(FitRules(rules, categories[i].name))
          && Agrees(categories[i].levelBitmap, FitRules(rules, categories[i].name))
          && categories[i].fitRulesBackup == old(categories[i].fitRules)
        invariant forall i | 0 <= i < k :: rooms(i) > |FitRules(rules, categories[i].name)|
        modifies categories
      {
        ok := categories[k].UpdateRules(rules, rooms(k));
        if !ok {
          return;
        }
        k := k + 1;
      }
      return true;
    }

    method CommitRules()
      requires Distinct()
      modifies categories
      ensures forall i | 0 <= i < |categories| ::
        categories[i].Now() == Committed(old(categories[i].Now()))
    {
      var k := 0;
      while k < |categories|
        invariant k <= |categories|
        invariant forall i | k <= i < |categories| :: categories[i].Now() == old(categories[i].Now())
        invariant forall i | 0 <= i < k ::
          categories[i].Now() == Committed(old(categories[i].Now()))
        modifies categories
      {
        categories[k].CommitRules();
        k := k + 1;
      }
    }

    method RollbackRules()
      requires Distinct()
      modifies categories
      ensures forall i | 0 <= i < |categories| ::
        categories[i].Now() == RolledBack(old(categories[i].Now()))
    {
      var k := 0;
      while k < |categories|
        invariant k <= |categories|
        invariant forall i | k <= i < |categories| :: categories[i].Now() == old(categories[i].Now())
        invariant forall i | 0 <= i < k ::
          categories[i].Now() == RolledBack(old(categories[i].Now()))
        modifies categories
      {
        categories[k].RollbackRules();
        k := k + 1;
      }
    }

    /** Wherever the update stopped, rolling back restores every category completely. */
    method UpdateAndRollback(rules: Rules, rooms: nat -> nat, ghost current: Rules) returns (ok: bool)
      requires Usable(rules) && Settled(current)
      modifies categories
      ensures Settled(current)
      ensures forall i | 0 <= i < |categories| :: categories[i].Now() == old(categories[i].Now())
    {
      hide Agrees, FitRules;
      ok := UpdateRules(rules, rooms);
      forall i | 0 <= i < |categories|
        ensures RolledBack(categories[i].Now()) == old(categories[i].Now())
      {
        RollbackRestores(categories[i].Now(), old(categories[i].Now()));
      }
      RollbackRules();
    }

    /** A complete update settles every category under the new rules. */
    method UpdateAndCommit(rules: Rules, rooms: nat -> nat, ghost current: Rules) returns (ok: bool)
      requires Usable(rules) && Settled(current)
      modifies categories
      ensures ok ==> Settled(rules)
      ensures !ok ==> forall i | 0 <= i < |categories| :: BackedUp(categories[i].Now(), old(categories[i].Now()))
      ensures ok <==> Enough(rules, rooms)
      ensures !ok ==> Broken()
    {
      hide Agrees, FitRules;
      ok := UpdateRules(rules, rooms);
      if ok {
        CommitRules();
      }
    }

    /** Whether a category of this name is in the table. */
    ghost predicate Has(name: Bytes)
      reads this
    {
      exists i | 0 <= i < |categories| :: categories[i].name == name
    }

    /** zlog_category_table_fetch_category; the last of the `room` operations puts the new category
        into the table. */
    method FetchCategory(name: Bytes, rules: Rules, room: nat) returns (c: Category?)
      requires Usable(rules) && Settled(rules)
      modifies this
      ensures Settled(rules)
      ensures categories == old(categories) || (c != null && categories == old(categories) + [c] && fresh(c))
      ensures c != null ==> c.name == name && c in categories
      ensures c == null <==> !old(Has(name)) && (|name| > MAXLEN_PATH || room <= |FitRules(rules, name)| + 1)
    {
      hide Agrees, FitRules;
      var k := 0;
      while k < |categories|
        invariant k <= |categories| && forall i | 0 <= i < k :: categories[i].name != name
      {
        if categories[k].name == name {
          return categories[k];
        }
        k := k + 1;
      }
      if |name| > MAXLEN_PATH {
        return null;
      }
      var a := new Category(name);
      var ok := a.ObtainRules(rules, room);
      if !ok || room == |FitRules(rules, name)| + 1 {
        return null;
      }
      categories := categories + [a];
      return a;
    }
  }
}
