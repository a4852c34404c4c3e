/** sym_lookup and sym_find: every name and constancy has one symbol, kept in hash chains. */
module SymbolInterning {

  /** The hash chain of symbols without a name. */
  const ANONYMOUS: nat := 256
  const CHAINS: nat := 257

  datatype Name = NoName | Name(text: string)

  /** struct symbol: its name, whether it is a quoted constant, and its chain link. */
  class Symbol {
    const name: Name
    const isConst: bool
    var next: Symbol?

    constructor (name: Name, isConst: bool)
      ensures this.name == name && this.isConst == isConst
    {
      this.name, this.isConst, next := name, isConst, null;
    }
  }

  function CharSum(s: string): nat {
    if s == [] then 0 else CharSum(s[..|s| - 1]) + s[|s| - 1] as int
  }

  function HashOf(n: Name): (h: nat)
    ensures h < CHAINS && (h == ANONYMOUS <==> n.NoName?)
  {
    if n.NoName? then ANONYMOUS else CharSum(n.text) % 256
  }

  /** The symbols from n on are those of the list. */
  ghost predicate Linked(n: Symbol?, list: seq<Symbol>)
    reads list
  {
    if list == [] then n == null
    else n == list[0] && Linked(list[0].next, list[1..])
  }

  predicate Is(s: Symbol, text: string, isConst: bool) {
    s.name == Name(text) && s.isConst == isConst
  }

  /** No two named symbols of the list agree in name and constancy. */
  ghost predicate Distinct(list: seq<Symbol>) {
    forall i, j :: 0 <= i < j < |list| && list[i].name.Name? ==>
                     !(list[i].name == list[j].name && list[i].isConst == list[j].isConst)
  }

  lemma {:induction false} DistinctFront(s: Symbol, list: seq<Symbol>)
    requires Distinct(list)
    requires s.name.Name? ==> forall t <- list :: !Is(t, s.name.text, s.isConst)
    ensures Distinct([s] + list)
  {
    var all := [s] + list;
    forall i, j | 0 <= i < j < |all| && all[i].name.Name?
      ensures !(all[i].name == all[j].name && all[i].isConst == all[j].isConst)
    {
      assert all[j] == list[j - 1];
      if i == 0 {
        assert !Is(all[j], s.name.text, s.isConst);
      } else {
        assert all[i] == list[i - 1];
      }
    }
  }

  /** A chain as it should be: linked, without duplicates, and with its own hash. */
  ghost predicate ChainValid(h: nat, head: Symbol?, list: seq<Symbol>)
    reads list
  {
    && Linked(head, list) && Distinct(list)
    && forall s <- list :: HashOf(s.name) == h && !IsPredefined(s.name)
  }

  class SymbolTable {
    const yes: Symbol
    const mod: Symbol
    const no: Symbol
    const heads: array<Symbol?>
    ghost var chains: seq<seq<Symbol>>
    ghost var members: set<Symbol>

    ghost predicate Valid()
      reads this, heads, members
    {
      && heads.Length == |chains| == CHAINS
      && yes.name == Name("y") && mod.name == Name("m") && no.name == Name("n")
      && forall h: nat :: h < CHAINS ==>
           (forall s <- chains[h] :: s in members) && ChainValid(h, heads[h], chains[h])
    }

    /** The symbol s is in the table. */
    ghost predicate Member(s: Symbol)
      reads this
    {
      HashOf(s.name) < |chains| && s in chains[HashOf(s.name)]
    }

    constructor ()
      ensures Valid() && fresh(heads)
      ensures forall s: Symbol :: !Member(s)
    {
      yes := new Symbol(Name("y"), true);
      mod := new Symbol(Name("m"), true);
      no := new Symbol(Name("n"), true);
      heads := new Symbol?[CHAINS](_ => null);
      chains, members := seq(CHAINS, _ => []), {};
    }

    /** The three constants that are found without the table. */
    function Predefined(name: string): (s: Symbol?)
      reads this
    {
      if name == "y" then yes else if name == "m" then mod else if name == "n" then no else null
    }

    /** Walks a hash chain for a symbol. */
    method Search(h: nat, text: string, isConst: bool) returns (s: Symbol?)
      requires Valid() && h == HashOf(Name(text))
      ensures s != null ==> s in chains[h] && Is(s, text, isConst)
      ensures s == null ==> forall t <- chains[h] :: !Is(t, text, isConst)
    {
      assert ChainValid(h, heads[h], chains[h]);
      s := heads[h];
      ghost var i := 0;
      while s != null
        invariant i <= |chains[h]| && Linked(s, chains[h][i..])
        invariant forall k :: 0 <= k < i ==> !Is(chains[h][k], text, isConst)
        decreases |chains[h]| - i
      {
        if Is(s, text, isConst) {
          return;
        }
        s := s.next;
        i := i + 1;
      }
    }

    /** sym_find. */
    method Find(text: string) returns (s: Symbol?)
      requires Valid()
      ensures IsPredefined(Name(text)) <==> text == "y" || text == "m" || text == "n"
      ensures IsPredefined(Name(text)) ==> s == if text == "y" then yes else if text == "m" then mod else no
      ensures !IsPredefined(Name(text)) && s != null ==> Member(s) && Is(s, text, false)
      ensures !IsPredefined(Name(text)) && s == null ==> forall t <- chains[HashOf(Name(text))] :: !Is(t, text, false)
    {
      if IsPredefined(Name(text)) {
        s := Predefined(text);
      } else {
        s := Search(HashOf(Name(text)), text, false);
      }
    }

    /** Adds a symbol in front of its chain. */
    method Enter(name: Name, isConst: bool) returns (s: Symbol)
      requires Valid() && !IsPredefined(name)
      requires name.Name? ==> forall t <- chains[HashOf(name)] :: !Is(t, name.text, isConst)
      modifies heads, this`chains, this`members
      ensures Valid() && fresh(s) && s.name == name && s.isConst == isConst
      ensures chains == old(chains)[HashOf(name) := [s] + old(chains)[HashOf(name)]]
    {
      var h := HashOf(name);
      assert ChainValid(h, heads[h], chains[h]);
      s := new Symbol(name, isConst);
      s.next := heads[h];
      heads[h] := s;
      ghost var list := chains[h];
      chains, members := chains[h := [s] + list], members + {s};
      assert chains[h][1..] == list;
      DistinctFront(s, list);
      assert ChainValid(h, heads[h], chains[h]);
    }

    /** sym_lookup: the symbol of that name and constancy, entered if there is none. */
    method Lookup(name: Name, isConst: bool) returns (s: Symbol)
      requires Valid()
      modifies heads, this`chains, this`members
      ensures Valid()
      ensures IsPredefined(name) <==> name == Name("y") || name == Name("m") || name == Name("n")
      ensures IsPredefined(name) ==>
                s == (if name.text == "y" then yes else if name.text == "m" then mod else no) && chains == old(chains)
      ensures !IsPredefined(name) ==> Member(s) && s.name == name && s.isConst == isConst
      ensures !IsPredefined(name) && name.Name? &&
              (exists t <- old(chains)[HashOf(name)] :: Is(t, name.text, isConst)) ==>
                chains == old(chains)
      ensures !IsPredefined(name) &&
              (name.NoName? || forall t <- old(chains)[HashOf(name)] :: !Is(t, name.text, isConst)) ==>
                fresh(s) && chains == old(chains)[HashOf(name) := [s] + old(chains)[HashOf(name)]]
    {
      if IsPredefined(name) {
        return Predefined(name.text);
      }
      if name.Name? {
        var found := Search(HashOf(name), name.text, isConst);
        if found != null {
          return found;
        }
      }
      s := Enter(name, isConst);
    }

    /** s is what Lookup finds for the text, now and from now on. */
    ghost predicate Denotes(s: Symbol, text: string, isConst: bool)
      reads this
    {
      if IsPredefined(Name(text)) then s == Predefined(text) else Member(s) && Is(s, text, isConst)
    }

    /** Any run of lookups: two of them give the same symbol exactly when they ask for the same
        name with the same constancy, the three predefined names being constants either way. */
    method LookupAll(texts: seq<string>, consts: seq<bool>) returns (symbols: seq<Symbol>)
      requires Valid() && |texts| == |consts|
      modifies heads, this`chains, this`members
      ensures Valid() && |symbols| == |texts|
      ensures forall i, j :: 0 <= i < |texts| && 0 <= j < |texts| ==>
                (symbols[i] == symbols[j] <==>
                 texts[i] == texts[j] && (IsPredefined(Name(texts[i])) || consts[i] == consts[j]))
    {
      symbols := [];
      for k := 0 to |texts|
        invariant Valid() && |symbols| == k
        invariant forall i :: 0 <= i < k ==> Denotes(symbols[i], texts[i], consts[i])
      {
        var s := Lookup(Name(texts[k]), consts[k]);
        symbols := symbols + [s];
      }
      forall i, j | 0 <= i < |texts| && 0 <= j < |texts|
        ensures symbols[i] == symbols[j] <==>
                texts[i] == texts[j] && (IsPredefined(Name(texts[i])) || consts[i] == consts[j])
      {
        DenotesOne(this, symbols[i], texts[i], consts[i], symbols[j], texts[j], consts[j]);
      }
    }
  }

  lemma {:induction false} DenotesOne(
    t: SymbolTable, a: Symbol, s: string, c: bool, b: Symbol, u: string, d: bool)
    requires t.Valid() && t.Denotes(a, s, c) && t.Denotes(b, u, d)
    ensures a == b <==> s == u && (IsPredefined(Name(s)) || c == d)
  {
    if s == u && c == d && !IsPredefined(Name(s)) {
      OneSymbol(t, a, b);
    }
  }

  predicate IsPredefined(n: Name) {
    n == Name("y") || n == Name("m") || n == Name("n")
  }

  /** In a valid table a name with its constancy denotes one symbol. */
  lemma {:induction false} OneSymbol(t: SymbolTable, a: Symbol, b: Symbol)
    requires t.Valid() && t.Member(a) && t.Member(b)
    requires a.name == b.name && a.name.Name? && a.isConst == b.isConst
    ensures a == b
  {
    var h := HashOf(a.name);
    assert ChainValid(h, t.heads[h], t.chains[h]);
    var i :| 0 <= i < |t.chains[h]| && t.chains[h][i] == a;
    var j :| 0 <= j < |t.chains[h]| && t.chains[h][j] == b;
  }
}
