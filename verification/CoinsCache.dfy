/**
The layered coins cache: CCoinsViewCache objects stacked on each other over a
database of coins. Entries carry DIRTY and FRESH flags and are dropped whenever the
layer below already answers for them.
*/
module CoinsCache {
  import opened Coins
  import opened Results

  type Txid = nat

  datatype Entry = Entry(coins: CCoins, isDirty: bool, isFresh: bool)

  /**
  One view. Without a base it is the database at the bottom of the stack: its map holds
  the stored coins, unpruned and without flags. With a base it is a cache over that base.
  */
  class CoinsView {
    const base: CoinsView?
    ghost const Repr: set<CoinsView>

    var cacheCoins: map<Txid, Entry>
    var hashBlock: Txid // zero when not set
    var hasModifier: bool
    var modified: Txid // the entry the active modifier refers to

    /** The views below this one are distinct from it, all the way down. */
    ghost predicate Stacked()
      decreases Repr
    {
      && this in Repr
      && (base != null ==> base in Repr && base.Repr == Repr - {this} && base.Stacked())
    }

    /** The coins this view shows for a transaction, pruned ones counting as absent. */
    ghost function At(t: Txid): Option<CCoins>
      requires Stacked()
      reads Repr
      decreases Repr
    {
      if t in cacheCoins then Shown(cacheCoins[t].coins)
      else if base == null then None
      else base.At(t)
    }

    /** What this view and the ones below it show and store as block hash, the last layer being this view. */
    ghost predicate Layers(ms: Plain)
      requires Stacked()
      reads Repr
      decreases Repr
    {
      && (forall t :: At(t) == Look(Top(ms).coins, t)) && Top(ms).hash == hashBlock
      && (base == null <==> |ms| == 1)
      && (base != null ==> base.Layers(ms[..|ms| - 1]))
    }

    /** What the flags of an entry claim about the view below. */
    ghost predicate FlagsHold(t: Txid)
      requires Stacked() && base != null && t in cacheCoins
      reads Repr
    {
      var e := cacheCoins[t];
      && (!e.isDirty ==> Shown(e.coins) == base.At(t))
      && (e.isFresh ==> base.At(t) == None)
      && (e.coins.IsClean() || (hasModifier && t == modified))
    }

    ghost predicate Stored(t: Txid)
      requires t in cacheCoins
      reads this
    {
      var e := cacheCoins[t];
      !e.isDirty && !e.isFresh && !e.coins.IsPruned() && e.coins.IsClean()
    }

    ghost predicate Valid()
      reads Repr
      ensures Valid() ==> Stacked() && (base != null ==> base.Stacked())
      decreases Repr
    {
      && Stacked()
      && (hasModifier ==> base != null && modified in cacheCoins && cacheCoins[modified].isDirty)
      && (base == null ==> forall t :: t in cacheCoins ==> Stored(t))
      && (base != null ==> base.Valid() && !base.hasModifier && forall t :: t in cacheCoins ==> FlagsHold(t))
    }

    constructor Database()
      ensures Valid() && fresh(Repr) && base == null && Repr == {this} && hashBlock == 0
      ensures forall t :: At(t) == None
    {
      base := null;
      Repr := {this};
      cacheCoins := map[];
      hashBlock, hasModifier, modified := 0, false, 0;
    }

    constructor (baseIn: CoinsView)
      requires baseIn.Valid() && !baseIn.hasModifier
      ensures Valid() && fresh(Repr - baseIn.Repr) && base == baseIn && !hasModifier && hashBlock == 0
      ensures forall t :: At(t) == baseIn.At(t)
      ensures forall t :: baseIn.At(t) == old(baseIn.At(t))
    {
      base := baseIn;
      Repr := {this} + baseIn.Repr;
      cacheCoins := map[];
      hashBlock, hasModifier, modified := 0, false, 0;
      new;
      assert Repr - {this} == baseIn.Repr;
    }

    /** GetCoins through FetchCoins: a miss fills the cache from the base without changing what it shows. */
    method GetCoins(t: Txid) returns (ok: bool, coins: CCoins)
      requires Valid()
      modifies Repr`cacheCoins
      ensures Valid()
      ensures forall u :: At(u) == old(At(u))
      ensures base != null ==> forall u :: base.At(u) == old(base.At(u))
      ensures Shown(coins) == At(t) && (!ok ==> At(t) == None)
      ensures ok <==> t in cacheCoins
      ensures ok ==> coins == cacheCoins[t].coins && (!hasModifier ==> coins.IsClean())
      ensures forall u :: u in old(cacheCoins) ==> u in cacheCoins && cacheCoins[u] == old(cacheCoins)[u]
      ensures forall ms :: old(Layers(ms)) ==> Layers(ms)
      decreases Repr
    {
      if t in cacheCoins {
        return true, cacheCoins[t].coins;
      }
      if base == null {
        return false, EMPTY;
      }
      ok, coins := base.GetCoins(t);
      assert forall u :: At(u) == old(At(u));
      forall ms | old(Layers(ms)) ensures Layers(ms) {
      }
      if !ok {
        return false, EMPTY;
      }
      PutEntry(t, Entry(coins, false, coins.IsPruned()));
    }

    /** Stores an entry whose flags are true claims. */
    method PutEntry(t: Txid, e: Entry)
      requires Valid() && base != null && (hasModifier ==> t != modified)
      requires (!e.isDirty ==> Shown(e.coins) == base.At(t)) && (e.isFresh ==> base.At(t) == None) && e.coins.IsClean()
      modifies this`cacheCoins
      ensures Valid() && cacheCoins == old(cacheCoins)[t := e]
      ensures forall u :: At(u) == if u == t then Shown(e.coins) else old(At(u))
      ensures forall u :: base.At(u) == old(base.At(u))
    {
      cacheCoins := cacheCoins[t := e];
    }

    /** Whether a transaction is known; with no modification going on, whether it has unspent outputs. */
    method HaveCoins(t: Txid) returns (r: bool)
      requires Valid()
      modifies Repr`cacheCoins
      ensures Valid()
      ensures forall u :: At(u) == old(At(u))
      ensures base != null ==> forall u :: base.At(u) == old(base.At(u))
      ensures r <==> t in cacheCoins && cacheCoins[t].coins.vout != []
      ensures !hasModifier ==> (r <==> At(t).Some?)
      ensures forall ms :: old(Layers(ms)) ==> Layers(ms)
    {
      var ok, coins := GetCoins(t);
      r := ok && coins.vout != [];
    }

    /** Makes sure of a dirty entry, created from the base and marked fresh when the base shows nothing. */
    method DirtyEntry(t: Txid)
      requires Valid() && base != null && !hasModifier
      modifies Repr`cacheCoins
      ensures Valid() && t in cacheCoins && cacheCoins[t].isDirty
      ensures forall u :: At(u) == old(At(u))
      ensures forall u :: base.At(u) == old(base.At(u))
      ensures forall ms :: old(base.Layers(ms)) ==> base.Layers(ms)
    {
      if t in cacheCoins {
        PutEntry(t, cacheCoins[t].(isDirty := true));
        return;
      }
      var ok, coins := base.GetCoins(t);
      if !ok {
        coins := EMPTY;
      }
      PutEntry(t, Entry(coins, true, !ok || coins.IsPruned()));
    }

    /** Starts a modification of the entry, which is created if need be. */
    method ModifyCoins(t: Txid) returns (coins: CCoins)
      requires Valid() && base != null && !hasModifier
      modifies Repr`cacheCoins, this
      ensures Valid() && hasModifier && modified == t && hashBlock == old(hashBlock)
      ensures forall u :: At(u) == old(At(u))
      ensures forall u :: base.At(u) == old(base.At(u))
      ensures coins == cacheCoins[t].coins && cacheCoins[t].isDirty && Shown(coins) == At(t)
      ensures forall ms :: old(base.Layers(ms)) ==> base.Layers(ms)
    {
      DirtyEntry(t);
      coins := cacheCoins[t].coins;
      hasModifier, modified := true, t;
    }

    /** Everything but the entry under modification is in order. */
    ghost predicate Editing()
      reads Repr
    {
      && Stacked() && base != null && base.Valid() && !base.hasModifier
      && hasModifier && modified in cacheCoins && cacheCoins[modified].isDirty
      && forall t :: t in cacheCoins && t != modified ==> FlagsHold(t)
    }

    /**
    Starts a modification without asking the base, and marks the entry fresh. That is a
    true claim, and the view stays valid, exactly when the base shows nothing.
    */
    method ModifyNewCoins(t: Txid) returns (coins: CCoins)
      requires Valid() && base != null && !hasModifier
      modifies this
      ensures Editing() && modified == t && hashBlock == old(hashBlock)
      ensures Valid() <==> old(base.At(t)) == None
      ensures coins == EMPTY && cacheCoins[t] == Entry(EMPTY, true, true)
      ensures forall u :: At(u) == if u == t then None else old(At(u))
      ensures forall u :: base.At(u) == old(base.At(u))
    {
      coins := EMPTY;
      cacheCoins := cacheCoins[t := Entry(EMPTY, true, true)];
      hasModifier, modified := true, t;
    }

    /** Writing through the modifier. */
    method Assign(c: CCoins)
      requires Editing()
      modifies this`cacheCoins
      ensures Editing() && (Valid() <==> old(Valid()))
      ensures cacheCoins[modified] == old(cacheCoins[modified]).(coins := c)
      ensures forall u :: At(u) == if u == modified then Shown(c) else old(At(u))
      ensures forall u :: base.At(u) == old(base.At(u))
    {
      cacheCoins := cacheCoins[modified := cacheCoins[modified].(coins := c)];
    }

    /** The modifier's destructor: clean up, and forget fresh coins that ended up pruned. */
    method EndModify()
      requires Editing()
      modifies this
      ensures Stacked() && !hasModifier && hashBlock == old(hashBlock)
      ensures old(Valid()) ==> Valid()
      ensures forall u :: u != old(modified) ==> At(u) == old(At(u))
      ensures At(old(modified)) == if old(cacheCoins[modified]).isFresh && old(cacheCoins[modified]).coins.IsPruned()
                                   then base.At(old(modified))
                                   else Shown(Cleaned(old(cacheCoins[modified]).coins))
      ensures old(Valid()) ==> At(old(modified)) == Shown(Cleaned(old(cacheCoins[modified]).coins))
      ensures forall u :: base.At(u) == old(base.At(u))
    {
      hasModifier := false;
      var c := Cleanup(cacheCoins[modified].coins);
      CleanedKeeps(cacheCoins[modified].coins);
      cacheCoins := cacheCoins[modified := cacheCoins[modified].(coins := c)];
      if cacheCoins[modified].isFresh && c.IsPruned() {
        cacheCoins := cacheCoins - {modified};
      }
    }

    /**
    New coins that are spent again before a flush. They are gone, as they should be,
    exactly when the base showed none: otherwise the base's older coins reappear.
    */
    method CreateAndSpend(t: Txid, c: CCoins)
      requires Valid() && base != null && !hasModifier && c.IsPruned()
      modifies this
      ensures Stacked() && At(t) == old(base.At(t))
      ensures At(t) == None <==> old(base.At(t)) == None
    {
      var _ := ModifyNewCoins(t);
      Assign(c);
      EndModify();
    }

    /** Drops an unmodified entry; the base shows the same. */
    method Uncache(t: Txid)
      requires Valid() && base != null
      modifies this`cacheCoins
      ensures Valid()
      ensures forall u :: At(u) == old(At(u))
      ensures forall u :: base.At(u) == old(base.At(u))
    {
      if t in cacheCoins && !cacheCoins[t].isDirty && !cacheCoins[t].isFresh {
        cacheCoins := cacheCoins - {t};
      }
    }

    /** What a batch of entries from a child cache claims about this view. */
    ghost predicate Batch(m: map<Txid, Entry>)
      requires Stacked()
      reads Repr
    {
      forall t :: t in m ==>
        && (!m[t].isDirty ==> Shown(m[t].coins) == At(t))
        && (m[t].isFresh ==> At(t) == None)
        && m[t].coins.IsClean()
    }

    /** Takes over the entries of a child cache, one by one, in no particular order. */
    method BatchWrite(mapCoins: map<Txid, Entry>, hashBlockIn: Txid)
      requires Valid() && !hasModifier && Batch(mapCoins)
      modifies this
      ensures Valid() && !hasModifier && hashBlock == hashBlockIn
      ensures forall u :: At(u) == if u in mapCoins then Shown(mapCoins[u].coins) else old(At(u))
      ensures base != null ==> forall u :: base.At(u) == old(base.At(u))
    {
      WriteAll(mapCoins);
      hashBlock := hashBlockIn;
    }

    method WriteAll(mapCoins: map<Txid, Entry>)
      requires Valid() && !hasModifier && Batch(mapCoins)
      modifies this`cacheCoins
      ensures Valid()
      ensures forall u :: At(u) == if u in mapCoins then Shown(mapCoins[u].coins) else old(At(u))
      ensures base != null ==> forall u :: base.At(u) == old(base.At(u))
    {
      hide Valid, At, FlagsHold, Stored, Shown, Stacked;
      var m := mapCoins;
      while m != map[]
        invariant Valid()
        invariant m.Keys <= mapCoins.Keys && forall t :: t in m ==> m[t] == mapCoins[t]
        invariant forall u :: At(u) == if u in mapCoins && u !in m then Shown(mapCoins[u].coins) else old(At(u))
        invariant base != null ==> forall u :: base.At(u) == old(base.At(u))
        decreases m.Keys
      {
        var t :| t in m;
        WriteEntry(t, m[t]);
        m := m - {t};
      }
    }

    /** One entry of a batch. */
    method WriteEntry(t: Txid, e: Entry)
      requires Valid() && !hasModifier
      requires (!e.isDirty ==> Shown(e.coins) == At(t)) && (e.isFresh ==> At(t) == None) && e.coins.IsClean()
      modifies this`cacheCoins
      ensures Valid()
      ensures forall u :: At(u) == if u == t then Shown(e.coins) else old(At(u))
      ensures base != null ==> forall u :: base.At(u) == old(base.At(u))
    {
      if !e.isDirty {
        return;
      }
      if base == null {
        if e.coins.IsPruned() {
          cacheCoins := cacheCoins - {t};
        } else {
          cacheCoins := cacheCoins[t := Entry(e.coins, false, false)];
        }
      } else if t !in cacheCoins {
        if !(e.isFresh && e.coins.IsPruned()) {
          cacheCoins := cacheCoins[t := Entry(e.coins, true, e.isFresh)];
        }
      } else {
        if cacheCoins[t].isFresh && e.coins.IsPruned() {
          cacheCoins := cacheCoins - {t};
        } else {
          cacheCoins := cacheCoins[t := Entry(e.coins, true, cacheCoins[t].isFresh)];
        }
      }
    }

    /** The block hash this view stands for: its own, or else the one below. */
    ghost function Best(): Txid
      requires Stacked()
      reads Repr
      decreases Repr
    {
      if hashBlock != 0 then hashBlock else if base == null then 0 else base.Best()
    }

    method GetBestBlock() returns (r: Txid)
      requires Valid()
      modifies Repr`hashBlock
      ensures Valid() && r == hashBlock == Best() == old(Best())
      ensures forall u :: At(u) == old(At(u))
      ensures forall ms :: old(Layers(ms)) ==> Layers(Settled(ms)) && r == Nearest(ms)
      decreases Repr
    {
      if hashBlock == 0 && base != null {
        hashBlock := base.GetBestBlock();
      }
      r := hashBlock;
    }

    method SetBestBlock(hash: Txid)
      requires Valid()
      modifies this`hashBlock
      ensures Valid() && hashBlock == hash && forall u :: At(u) == old(At(u))
    {
      hashBlock := hash;
    }

    /** Pushes the modifications into the base, which then shows what this view showed. */
    method Flush()
      requires Valid() && base != null && !hasModifier
      modifies this, base
      ensures Valid() && !hasModifier && cacheCoins == map[] && base.hashBlock == hashBlock == old(hashBlock)
      ensures forall u :: At(u) == old(At(u))
      ensures forall u :: base.At(u) == old(At(u))
      ensures base.base != null ==> forall u :: base.base.At(u) == old(base.base.At(u))
      // The block hash is passed on as it is stored, so it is lost when it was only inherited.
      ensures base.base != null ==>
                (base.Best() == old(Best()) <==> old(hashBlock) != 0 || old(base.Best()) == old(base.base.Best()))
      ensures base.base == null ==> (base.Best() == old(Best()) <==> old(hashBlock) != 0 || old(base.Best()) == 0)
    {
      base.BatchWrite(cacheCoins, hashBlock);
      cacheCoins := map[];
    }
  }

  /** The database at the bottom of the stack. */
  ghost function Bottom(v: CoinsView): (b: CoinsView)
    requires v.Stacked()
    ensures b.Stacked() && b.base == null && b.Repr <= v.Repr
    decreases v.Repr
  {
    if v.base == null then v else Bottom(v.base)
  }

  /** Flushing every layer, top first, commits what the top showed to the database and hides nothing. */
  method FlushAll(v: CoinsView)
    requires v.Valid() && !v.hasModifier
    modifies v.Repr
    ensures v.Valid() && !v.hasModifier
    ensures forall u :: v.At(u) == old(v.At(u))
    ensures forall u :: Bottom(v).At(u) == old(v.At(u))
    decreases v.Repr
  {
    if v.base != null {
      v.Flush();
      FlushAll(v.base);
    }
  }

  // ---------------------------------------------------------------- where the promises fail

  /** Coins that are in the database, created anew in a cache and spent there again are back. */
  method Reappearing(t: Txid, c: CCoins) returns (v: CoinsView)
    requires !c.IsPruned()
    ensures v.Stacked() && v.At(t) == Some(Cleaned(c))
  {
    var db := new CoinsView.Database();
    v := new CoinsView(db);
    var _ := v.ModifyNewCoins(t);
    v.Assign(c);
    v.EndModify();
    CleanedKeeps(c);
    v.Flush();
    v.CreateAndSpend(t, EMPTY);
  }

  /** A cache that only inherits its block hash and is flushed makes its base forget the hash. */
  method HashIsLost(hash: Txid) returns (v: CoinsView, ghost before: Txid)
    requires hash != 0
    ensures v.Stacked() && before == hash && v.Best() == 0
  {
    var db := new CoinsView.Database();
    v := new CoinsView(db);
    v.SetBestBlock(hash);
    var child := new CoinsView(v);
    before := child.Best();
    child.Flush();
  }

  // ---------------------------------------------------------------- whole runs

  /** What can be done with the top of a stack of views, including a new view on top and dropping the top. */
  datatype Op =
    | Get(t: Txid)
    | Have(t: Txid)
    | Modify(t: Txid, f: CCoins -> CCoins)
    | ModifyNew(t: Txid, f: CCoins -> CCoins)
    | Uncache(t: Txid)
    | GetBest
    | SetBest(hash: Txid)
    | Flush
    | Push
    | Drop

  datatype Answer = Coins(shown: Option<CCoins>) | Known(yes: bool) | Block(hash: Txid) | Done

  /** A plain map of unpruned coins, and a block hash, zero when there is none. */
  datatype Layer = Layer(coins: map<Txid, CCoins>, hash: Txid)

  /** A stack of them, the top last. */
  type Plain = ms: seq<Layer> | |ms| > 0 witness [Layer(map[], 0)]

  function Look(m: map<Txid, CCoins>, t: Txid): Option<CCoins>
  {
    if t in m then Some(m[t]) else None
  }

  function Put(m: map<Txid, CCoins>, t: Txid, c: CCoins): map<Txid, CCoins>
  {
    if c.IsPruned() then m - {t} else m[t := c]
  }

  function Top(ms: Plain): Layer
  {
    ms[|ms| - 1]
  }

  function OnTop(ms: Plain, m: Layer): Plain
  {
    ms[|ms| - 1 := m]
  }

  /** The stack with other coins on top. */
  function WithCoins(ms: Plain, m: map<Txid, CCoins>): Plain
  {
    OnTop(ms, Top(ms).(coins := m))
  }

  /** The block hash of the topmost layer that has one. */
  function Nearest(ms: Plain): Txid
  {
    if Top(ms).hash != 0 || |ms| == 1 then Top(ms).hash else Nearest(ms[..|ms| - 1])
  }

  /** The layers above it remember it once they were asked. */
  function Settled(ms: Plain): (r: Plain)
    ensures |r| == |ms| && Top(r) == Top(ms).(hash := Nearest(ms))
  {
    if Top(ms).hash != 0 || |ms| == 1 then ms
    else Settled(ms[..|ms| - 1]) + [Top(ms).(hash := Nearest(ms))]
  }

  /**
  One operation on the stack. A modification of coins that are not there may be given any
  pruned coins to modify; everything else is determined. A flush hands on the block hash of
  the top as it is, also when there is none.
  */
  ghost predicate Stepped(ms: Plain, op: Op, next: Plain, a: Answer)
  {
    var m := Top(ms).coins;
    match op
    case Get(t) => next == ms && a == Coins(Look(m, t))
    case Have(t) => next == ms && a == Known(t in m)
    case Modify(t, f) =>
      a == Done && exists c :: Shown(c) == Look(m, t) && next == WithCoins(ms, Put(m, t, Cleaned(f(c))))
    case ModifyNew(t, f) => a == Done && next == WithCoins(ms, Put(m, t, Cleaned(f(EMPTY))))
    case Uncache(_) => a == Done && next == ms
    case GetBest => a == Block(Nearest(ms)) && next == Settled(ms)
    case SetBest(hash) => a == Done && next == OnTop(ms, Top(ms).(hash := hash))
    case Flush => a == Done && |ms| > 1 && next == ms[|ms| - 2 := Top(ms)]
    case Push => a == Done && next == ms + [Layer(m, 0)]
    case Drop => a == Done && |ms| > 1 && next == ms[..|ms| - 1]
  }

  /** After a flush the base stands for the block of the top exactly when the top has a hash or inherits no other. */
  lemma FlushKeepsHash(ms: Plain, next: Plain, a: Answer)
    requires |ms| > 1 && Stepped(ms, Flush, next, a)
    ensures var n := |ms| - 1;
      Nearest(next[..n]) == Nearest(ms) <==>
        || Top(ms).hash != 0
        || (if n == 1 then Nearest(ms) == 0 else Nearest(ms[..n]) == Nearest(ms[..n - 1]))
  {
    var n := |ms| - 1;
    assert next[..n][..n - 1] == ms[..n - 1] && Top(next[..n]) == Top(ms);
  }

  /** What the top asks of its caller: that it is a cache, and that new coins are new to its base. */
  ghost predicate Allowed(ms: Plain, op: Op)
  {
    match op
    case Get(_) => true
    case Have(_) => true
    case GetBest => true
    case Push => true
    case ModifyNew(t, _) => |ms| > 1 && t !in ms[|ms| - 2].coins
    case _ => |ms| > 1
  }

  /** Every operation is allowed, whatever the ones before it led to. */
  ghost predicate AllAllowed(ms: Plain, ops: seq<Op>)
    decreases |ops|
  {
    ops == [] ||
    (Allowed(ms, ops[0]) && forall next, a :: Stepped(ms, ops[0], next, a) ==> AllAllowed(next, ops[1..]))
  }

  /** A run on a stack of plain maps with its answers. */
  ghost predicate PlainRun(ms: Plain, ops: seq<Op>, last: Plain, answers: seq<Answer>)
    decreases |ops|
  {
    if ops == [] then last == ms && answers == []
    else
      && |answers| > 0
      && exists next :: Stepped(ms, ops[0], next, answers[0]) && PlainRun(next, ops[1..], last, answers[1..])
  }

  /** A modification that does not tell pruned coins apart. */
  ghost predicate Respectful(f: CCoins -> CCoins)
  {
    forall a, b :: SameCoins(a, b) ==> SameCoins(Cleaned(f(a)), Cleaned(f(b)))
  }

  /** With such modifications a step has only one outcome. */
  lemma StepIsDetermined(ms: Plain, op: Op, next: Plain, a: Answer, next': Plain, a': Answer)
    requires Stepped(ms, op, next, a) && Stepped(ms, op, next', a')
    requires op.Modify? ==> Respectful(op.f)
    ensures next == next' && a == a'
  {
    if op.Modify? {
      var m := Top(ms).coins;
      var c :| Shown(c) == Look(m, op.t) && next == WithCoins(ms, Put(m, op.t, Cleaned(op.f(c))));
      var c' :| Shown(c') == Look(m, op.t) && next' == WithCoins(ms, Put(m, op.t, Cleaned(op.f(c'))));
      assert SameCoins(c, c');
      assert SameCoins(Cleaned(op.f(c)), Cleaned(op.f(c')));
    }
  }

  ghost predicate Models(v: CoinsView, ms: Plain)
    reads v.Repr
  {
    v.Valid() && !v.hasModifier && v.Layers(ms)
  }

  lemma PutShows(m: map<Txid, CCoins>, t: Txid, c: CCoins)
    ensures forall u :: Look(Put(m, t, c), u) == if u == t then Shown(c) else Look(m, u)
  {
  }

  /** A view whose base is unchanged shows a new layer on top of the old ones. */
  lemma LayersOnTop(v: CoinsView, ms: Plain, m: Layer)
    requires v.Stacked() && (|ms| > 1 <==> v.base != null)
    requires v.base != null ==> v.base.Stacked() && v.base.Layers(ms[..|ms| - 1])
    requires (forall u :: v.At(u) == Look(m.coins, u)) && v.hashBlock == m.hash
    ensures v.Layers(OnTop(ms, m))
  {
    assert OnTop(ms, m)[..|ms| - 1] == ms[..|ms| - 1];
  }

  lemma LayersParts(v: CoinsView, ms: Plain)
    requires v.Stacked() && v.Layers(ms)
    ensures (forall u :: v.At(u) == Look(Top(ms).coins, u)) && v.hashBlock == Top(ms).hash
    ensures |ms| > 1 <==> v.base != null
    ensures v.base != null ==> v.base.Stacked() && v.base.Layers(ms[..|ms| - 1])
    ensures v.base != null ==> forall u :: v.base.At(u) == Look(ms[|ms| - 2].coins, u)
  {
    if v.base != null {
      assert ms[..|ms| - 1][|ms| - 2] == ms[|ms| - 2];
    }
  }

  /** A modification from start to end: what is shown afterwards is what was written, cleaned up. */
  method ModifyWith(v: CoinsView, t: Txid, f: CCoins -> CCoins, ghost ms: Plain) returns (ghost next: Plain)
    requires Models(v, ms) && |ms| > 1
    modifies v.Repr
    ensures Models(v, next) && Stepped(ms, Modify(t, f), next, Done)
  {
    hide CoinsView.Layers, CoinsView.At, Shown, Put, Look;
    LayersParts(v, ms);
    var coins := v.ModifyCoins(t);
    v.Assign(f(coins));
    v.EndModify();
    ghost var m := Put(Top(ms).coins, t, Cleaned(f(coins)));
    PutShows(Top(ms).coins, t, Cleaned(f(coins)));
    LayersOnTop(v, ms, Layer(m, v.hashBlock));
    next := WithCoins(ms, m);
  }

  method ModifyNewWith(v: CoinsView, t: Txid, f: CCoins -> CCoins, ghost ms: Plain) returns (ghost next: Plain)
    requires Models(v, ms) && |ms| > 1 && t !in ms[|ms| - 2].coins
    modifies v.Repr
    ensures Models(v, next) && Stepped(ms, ModifyNew(t, f), next, Done)
  {
    hide CoinsView.Layers, CoinsView.At, Shown, Put;
    LayersParts(v, ms);
    var coins := v.ModifyNewCoins(t);
    v.Assign(f(coins));
    v.EndModify();
    ghost var m := Put(Top(ms).coins, t, Cleaned(f(EMPTY)));
    PutShows(Top(ms).coins, t, Cleaned(f(EMPTY)));
    LayersOnTop(v, ms, Layer(m, v.hashBlock));
    next := WithCoins(ms, m);
  }

  method FlushTop(v: CoinsView, ghost ms: Plain) returns (ghost next: Plain)
    requires Models(v, ms) && |ms| > 1
    modifies v.Repr
    ensures Models(v, next) && Stepped(ms, Flush, next, Done)
  {
    hide CoinsView.Layers, CoinsView.At;
    ghost var n := |ms| - 1;
    ghost var b := v.base;
    LayersParts(v, ms);
    LayersParts(b, ms[..n]);
    assert ms[..n][..n - 1] == ms[..n - 1];
    v.Flush();
    LayersOnTop(b, ms[..n], Top(ms));
    next := ms[n - 1 := Top(ms)];
    assert next[..n] == OnTop(ms[..n], Top(ms)) && next == OnTop(next, Top(ms));
    LayersOnTop(v, next, Top(ms));
  }

  method Step(v: CoinsView, op: Op, ghost ms: Plain) returns (top: CoinsView, a: Answer, ghost next: Plain)
    requires Models(v, ms) && Allowed(ms, op)
    modifies v.Repr
    ensures Models(top, next) && Stepped(ms, op, next, a)
    ensures fresh(top.Repr - v.Repr)
  {
    top, a, next := v, Done, ms;
    match op
    case Get(t) =>
      var ok, coins := v.GetCoins(t);
      a := Coins(Shown(coins));
    case Have(t) =>
      var yes := v.HaveCoins(t);
      a := Known(yes);
    case Modify(t, f) =>
      next := ModifyWith(v, t, f, ms);
    case ModifyNew(t, f) =>
      next := ModifyNewWith(v, t, f, ms);
    case Uncache(t) =>
      v.Uncache(t);
    case GetBest =>
      var hash := v.GetBestBlock();
      a, next := Block(hash), Settled(ms);
    case SetBest(hash) =>
      LayersParts(v, ms);
      v.SetBestBlock(hash);
      next := OnTop(ms, Top(ms).(hash := hash));
      LayersOnTop(v, ms, Top(next));
    case Flush =>
      next := FlushTop(v, ms);
    case Push =>
      top := new CoinsView(v);
      next := ms + [Layer(Top(ms).coins, 0)];
      assert next[..|ms|] == ms;
    case Drop =>
      top := v.base;
      next := ms[..|ms| - 1];
  }

  /** For every allowed run the stack of caches answers, and ends up, as the plain stack would. */
  method Run(v: CoinsView, ops: seq<Op>, ghost ms: Plain)
    returns (top: CoinsView, answers: seq<Answer>, ghost last: Plain)
    requires Models(v, ms) && AllAllowed(ms, ops)
    modifies v.Repr
    ensures Models(top, last) && PlainRun(ms, ops, last, answers)
    decreases |ops|
  {
    if ops == [] {
      return v, [], ms;
    }
    var a, rest;
    ghost var next;
    top, a, next := Step(v, ops[0], ms);
    top, rest, last := Run(top, ops[1..], next);
    answers := [a] + rest;
    assert answers[1..] == rest;
  }
}
