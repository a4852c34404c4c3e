/** How menu_finalize prepares the visibility of prompts down a menu tree: transform, join to what
    the parent requires, eliminate duplicates and, for symbols that are not tristate,
    expr_trans_bool. */
module MenuTree {
  import opened Options
  import opened Expr
  import opened Transformation
  import opened DuplicatesLoop
  import opened Queries
  import opened Lifting
  import opened MenuDependency

  // ---- Conditions, which may be missing ----

  ghost function ConditionValue(env: Env, c: Option<Expr>): Tristate {
    if c.Some? then Eval(env, c.value) else YES
  }

  ghost predicate NormalCondition(c: Option<Expr>) {
    c.Some? ==> Normal(c.value)
  }

  /** expr_alloc_and. */
  function AllocAnd(a: Option<Expr>, b: Option<Expr>): Option<Expr> {
    if a.None? then b else if b.None? then a else Some(Bin(And, a.value, b.value))
  }

  function Transformed(c: Option<Expr>): Option<Expr> {
    if c.Some? then Some(Transform(c.value)) else None
  }

  /** A condition joined to what its parent requires. */
  ghost function Joined(parent: Option<Expr>, c: Option<Expr>): Option<Expr> {
    var both := AllocAnd(parent, Transformed(c));
    if both.Some? then Some(WithoutDups(both.value)) else None
  }

  lemma {:induction false} JoinedMeaning(env: Env, parent: Option<Expr>, c: Option<Expr>)
    requires NormalCondition(parent)
    ensures NormalCondition(Joined(parent, c))
    ensures Settles(Apply(And, ConditionValue(env, parent), ConditionValue(env, c)),
                    ConditionValue(env, Joined(parent, c)))
  {
    if c.Some? {
      TransformExact(env, c.value);
      TransformNormal(c.value);
    }
    var both := AllocAnd(parent, Transformed(c));
    if both.Some? {
      WithoutDupsSettles(env, both.value);
      WithoutDupsNormal(both.value);
    }
  }

  /** The visibility expression stored for a prompt, given what the menu entry requires. */
  ghost function PromptVisibility(base: Option<Expr>, prompt: Option<Expr>, isTristate: bool): Option<Expr> {
    var joined := Joined(base, prompt);
    if isTristate || joined.None? then joined else Some(TransBool(joined.value))
  }

  /** Below a requirement in normal form the stored expression is in normal form again. Where both
      conditions together are n it is n, and where they are y it is not n; for a tristate symbol,
      and in the reading of a symbol that cannot be m, it settles them. For any other symbol it holds
      no comparison of a tristate symbol with n by !=. */
  lemma {:induction false} PromptVisibilityMeaning(env: Env, base: Option<Expr>, prompt: Option<Expr>, isTristate: bool)
    requires NormalCondition(base)
    ensures NormalCondition(PromptVisibility(base, prompt, isTristate))
    ensures var wanted := Apply(And, ConditionValue(env, base), ConditionValue(env, prompt));
            var stored := ConditionValue(env, PromptVisibility(base, prompt, isTristate));
            && (isTristate || env.lifted ==> Settles(wanted, stored))
            && (wanted == NO ==> stored == NO)
            && (wanted == YES ==> stored != NO)
    ensures var stored := PromptVisibility(base, prompt, isTristate);
            !isTristate && stored.Some? ==> forall x <- Subexpressions(stored.value) :: !IsBoolTest(x)
  {
    JoinedMeaning(env, base, prompt);
    var joined := Joined(base, prompt);
    if !isTristate && joined.Some? {
      TransBoolTests(joined.value);
      TransBoolNormal(joined.value);
      TransBoolKeepsNo(env, joined.value);
      if env.lifted {
        TransBoolLifted(env, joined.value);
      }
    }
  }

  // ---- Down a menu tree ----

  /** A menu entry: what it requires, the condition of its prompt, and whether its symbol may be m. */
  datatype Entry = Entry(dep: Option<Expr>, prompt: Option<Expr>, isTristate: bool)

  /** The visibility stored for an entry, given that of the prompt of its parent. */
  ghost function Stored(parent: Option<Expr>, entry: Entry): Option<Expr> {
    PromptVisibility(Joined(parent, entry.dep), entry.prompt, entry.isTristate)
  }

  /** The visibility stored for the last of a chain of entries, each below the one before it. */
  ghost function StoredBelow(root: Option<Expr>, entries: seq<Entry>): Option<Expr> {
    if entries == [] then root
    else Stored(StoredBelow(root, entries[..|entries| - 1]), entries[|entries| - 1])
  }

  /** All conditions from the root to the last entry together. */
  ghost function Wanted(env: Env, root: Option<Expr>, entries: seq<Entry>): Tristate {
    if entries == [] then ConditionValue(env, root)
    else
      var last := entries[|entries| - 1];
      Apply(And, Apply(And, Wanted(env, root, entries[..|entries| - 1]), ConditionValue(env, last.dep)),
            ConditionValue(env, last.prompt))
  }

  lemma {:induction false} StoredBelowSettles(env: Env, root: Option<Expr>, entries: seq<Entry>)
    requires NormalCondition(root)
    ensures NormalCondition(StoredBelow(root, entries))
    ensures Wanted(env, root, entries) == NO ==> ConditionValue(env, StoredBelow(root, entries)) == NO
    ensures env.lifted || (forall e <- entries :: e.isTristate) ==>
              Settles(Wanted(env, root, entries), ConditionValue(env, StoredBelow(root, entries)))
    decreases |entries|
  {
    if entries != [] {
      var above, last := entries[..|entries| - 1], entries[|entries| - 1];
      assert forall e <- above :: e in entries;
      var parent := StoredBelow(root, above);
      StoredBelowSettles(env, root, above);
      JoinedMeaning(env, parent, last.dep);
      PromptVisibilityMeaning(env, Joined(parent, last.dep), last.prompt, last.isTristate);
    }
  }

  lemma {:induction false} LiftCondition(env: Env, c: Option<Expr>)
    ensures Settles(ConditionValue(env, c), ConditionValue(env.(lifted := true), c))
  {
    if c.Some? {
      LiftSettles(env, c.value);
    }
  }

  lemma {:induction false} LiftWanted(env: Env, root: Option<Expr>, entries: seq<Entry>)
    ensures Settles(Wanted(env, root, entries), Wanted(env.(lifted := true), root, entries))
    decreases |entries|
  {
    if entries == [] {
      LiftCondition(env, root);
    } else {
      LiftWanted(env, root, entries[..|entries| - 1]);
      LiftCondition(env, entries[|entries| - 1].dep);
      LiftCondition(env, entries[|entries| - 1].prompt);
    }
  }

  /** However deep an entry lies: where some condition above it or its own is n it is hidden, and
      where all of them are y it is shown, although at every level duplicates have been eliminated
      and comparisons with n dropped. If all symbols on the way are tristate, only an m can have
      become definite. */
  lemma {:induction false} NestedVisibility(env: Env, root: Option<Expr>, entries: seq<Entry>)
    requires NormalCondition(root)
    ensures var wanted := Wanted(env, root, entries);
            var stored := ConditionValue(env, StoredBelow(root, entries));
            && (wanted == NO ==> stored == NO)
            && (wanted == YES ==> stored != NO)
            && ((forall e <- entries :: e.isTristate) ==> Settles(wanted, stored))
    ensures NormalCondition(StoredBelow(root, entries))
  {
    var lifted := env.(lifted := true);
    StoredBelowSettles(env, root, entries);
    StoredBelowSettles(lifted, root, entries);
    LiftWanted(env, root, entries);
    LiftCondition(env, StoredBelow(root, entries));
  }
}
