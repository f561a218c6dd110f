/**
prevector: a vector that keeps up to N elements in itself and more of them on the heap.
Every operation is proved against the same operation on a sequence.
*/
module Prevector {

  /** The union of the two layouts. */
  datatype Storage<T> = Direct(buf: array<T>) | Indirect(capacity: nat, buf: array<T>)

  class Prevector<T(0,==)> {
    const N: nat
    var used: nat
    var storage: Storage<T>

    /** Storage is direct exactly while `used` is at most N, and holds at least the elements. */
    ghost predicate Valid()
      reads this
    {
      && (used <= N <==> storage.Direct?)
      && storage.buf.Length == Capacity()
      && Size() <= Capacity()
    }

    predicate IsDirect()
      reads this
    {
      used <= N
    }

    function Size(): nat
      reads this
    {
      if IsDirect() then used else used - N - 1
    }

    function Capacity(): nat
      reads this
    {
      if IsDirect() || storage.Direct? then N else storage.capacity
    }

    ghost function Contents(): seq<T>
      requires Valid()
      reads this, storage.buf
    {
      storage.buf[..Size()]
    }

    constructor (n: nat)
      ensures Valid() && N == n && fresh(storage.buf) && Contents() == []
    {
      N := n;
      used := 0;
      var buf := new T[n];
      storage := Direct(buf);
    }

    method ChangeCapacity(new_capacity: nat)
      requires Valid() && Size() <= new_capacity
      modifies this
      ensures Valid() && Contents() == old(Contents())
      ensures Capacity() >= new_capacity
      ensures storage.buf == old(storage.buf) || fresh(storage.buf)
    {
      ghost var before := Contents();
      var n := Size();
      if new_capacity <= N {
        if !IsDirect() {
          var src := storage.buf;
          var dst := new T[N];
          forall i | 0 <= i < n {
            dst[i] := src[i];
          }
          storage := Direct(dst);
          used := used - (N + 1);
        }
      } else {
        var src := storage.buf;
        var dst := new T[new_capacity];
        forall i | 0 <= i < n {
          dst[i] := src[i];
        }
        if IsDirect() {
          used := used + N + 1;
        }
        storage := Indirect(new_capacity, dst);
      }
      assert Contents() == before;
    }

    /** Makes room for new_size elements, with half as much again when that takes a new allocation. */
    method Grow(new_size: nat)
      requires Valid()
      modifies this
      ensures Valid() && Contents() == old(Contents()) && new_size <= Capacity()
      ensures storage.buf == old(storage.buf) || fresh(storage.buf)
    {
      if Capacity() < new_size {
        ChangeCapacity(new_size + new_size / 2);
      }
    }

    /** Constructs one more element at the end of storage that has room for it. */
    method Construct(val: T)
      requires Valid() && Size() < Capacity()
      modifies this`used, storage.buf
      ensures Valid() && Contents() == old(Contents()) + [val] && Capacity() == old(Capacity())
    {
      used := used + 1;
      storage.buf[Size() - 1] := val;
    }

    method Erase(first: nat, last: nat)
      requires Valid() && first <= last <= Size()
      modifies this`used, storage.buf
      ensures Valid() && Contents() == old(Contents()[..first] + Contents()[last..])
      ensures Capacity() == old(Capacity())
    {
      var end := Size();
      var p := first;
      while p != last
        invariant first <= p <= last && (IsDirect() <==> storage.Direct?)
        invariant used == old(used) - (p - first) && Size() == end - (p - first)
        invariant storage.buf[..] == old(storage.buf[..])
        decreases last - p
      {
        used := used - 1;
        p := p + 1;
      }
      MemMove(storage.buf, first, last, end - last);
    }

    method Resize(new_size: nat, default: T)
      requires Valid()
      modifies this, storage.buf
      ensures Valid() && Contents() == Resized(old(Contents()), new_size, default)
      ensures storage.buf == old(storage.buf) || fresh(storage.buf)
      ensures new_size == 0 ==> Capacity() == old(Capacity())
    {
      if Size() > new_size {
        Erase(new_size, Size());
      }
      if new_size > Capacity() {
        ChangeCapacity(new_size);
      }
      ghost var start, cap := Contents(), Capacity();
      while Size() < new_size
        invariant Valid() && |start| <= Size() <= new_size <= Capacity() == cap
        invariant Contents() == start + seq(Size() - |start|, _ => default)
        invariant storage.buf == old(storage.buf) || fresh(storage.buf)
        decreases new_size - Size()
      {
        Construct(default);
      }
    }

    method Reserve(new_capacity: nat)
      requires Valid()
      modifies this
      ensures Valid() && Contents() == old(Contents()) && Capacity() >= new_capacity
      ensures storage.buf == old(storage.buf) || fresh(storage.buf)
    {
      if new_capacity > Capacity() {
        ChangeCapacity(new_capacity);
      }
    }

    method ShrinkToFit()
      requires Valid()
      modifies this
      ensures Valid() && Contents() == old(Contents())
      ensures storage.buf == old(storage.buf) || fresh(storage.buf)
    {
      ChangeCapacity(Size());
    }

    /** Appends the elements of a sequence, one at a time, to storage that has room for them. */
    method ConstructAll(vals: seq<T>)
      requires Valid() && Size() + |vals| <= Capacity()
      modifies this`used, storage.buf
      ensures Valid() && Contents() == old(Contents()) + vals
    {
      ghost var start := Contents();
      var i := 0;
      assert start + vals[..0] == start;
      while i < |vals|
        invariant i <= |vals| && Valid() && Size() == |start| + i && Capacity() == old(Capacity())
        invariant Contents() == start + vals[..i]
      {
        Construct(vals[i]);
        assert vals[..i + 1] == vals[..i] + [vals[i]];
        i := i + 1;
      }
      assert vals[..i] == vals;
    }

    /** assign(n, val). */
    method Assign(n: nat, val: T)
      requires Valid()
      modifies this, storage.buf
      ensures Valid() && Contents() == seq(n, _ => val)
      ensures storage.buf == old(storage.buf) || fresh(storage.buf)
    {
      Resize(0, val);
      if Capacity() < n {
        ChangeCapacity(n);
      }
      ConstructAll(seq(n, _ => val));
    }

    /** assign(first, last), for a range that is not part of this vector. */
    method AssignRange(vals: seq<T>, default: T)
      requires Valid()
      modifies this, storage.buf
      ensures Valid() && Contents() == vals
      ensures storage.buf == old(storage.buf) || fresh(storage.buf)
    {
      Resize(0, default);
      if Capacity() < |vals| {
        ChangeCapacity(|vals|);
      }
      ConstructAll(vals);
    }

    /** Assignment from another vector, or from itself. */
    method CopyFrom(other: Prevector<T>, default: T)
      requires Valid() && other.Valid() && other.N == N
      requires other != this ==> other.storage.buf != storage.buf
      modifies this, storage.buf
      ensures Valid() && Contents() == old(other.Contents())
      ensures other != this ==> other.Valid() && other.Contents() == old(other.Contents())
      ensures storage.buf == old(storage.buf) || fresh(storage.buf)
    {
      if other == this {
        return;
      }
      Resize(0, default);
      ChangeCapacity(other.Size());
      ConstructAll(other.storage.buf[..other.Size()]);
    }

    /** Makes a gap before position p: grows if needed, moves the rest up and counts the new elements. */
    method OpenGap(p: nat, count: nat)
      requires Valid() && p <= Size()
      modifies this, storage.buf
      ensures Valid() && Size() == old(Size()) + count
      ensures Contents()[..p] == old(Contents()[..p]) && Contents()[p + count..] == old(Contents()[p..])
      ensures storage.buf == old(storage.buf) || fresh(storage.buf)
    {
      Grow(Size() + count);
      MoveUp(p, count);
    }

    method MoveUp(p: nat, count: nat)
      requires Valid() && p <= Size() && Size() + count <= Capacity()
      modifies this`used, storage.buf
      ensures Valid() && Size() == old(Size()) + count
      ensures Contents()[..p] == old(Contents()[..p]) && Contents()[p + count..] == old(Contents()[p..])
    {
      MemMove(storage.buf, p + count, p, Size() - p);
      used := used + count;
    }

    /** insert(pos, value). */
    method Insert(p: nat, value: T)
      requires Valid() && p <= Size()
      modifies this, storage.buf
      ensures Valid() && Contents() == old(Contents()[..p] + [value] + Contents()[p..])
      ensures storage.buf == old(storage.buf) || fresh(storage.buf)
    {
      OpenGap(p, 1);
      ghost var gap := Contents();
      storage.buf[p] := value;
      assert Contents() == gap[..p] + [value] + gap[p + 1..];
    }

    /** insert(pos, count, value) and insert(pos, first, last), for a range that is not part of this vector. */
    method InsertRange(p: nat, vals: seq<T>)
      requires Valid() && p <= Size()
      modifies this, storage.buf
      ensures Valid() && Contents() == old(Contents()[..p] + vals + Contents()[p..])
      ensures storage.buf == old(storage.buf) || fresh(storage.buf)
    {
      OpenGap(p, |vals|);
      ghost var gap := storage.buf[..];
      assert gap[..Size()] == Contents();
      Fill(storage.buf, p, vals);
      FilledPart(gap, storage.buf[..], p, vals, Size());
      assert storage.buf[..][..Size()] == Contents();
    }

    method PushBack(value: T)
      requires Valid()
      modifies this, storage.buf
      ensures Valid() && Contents() == old(Contents()) + [value]
      ensures storage.buf == old(storage.buf) || fresh(storage.buf)
    {
      Grow(Size() + 1);
      storage.buf[Size()] := value;
      used := used + 1;
    }

    method PopBack()
      requires Valid() && Size() > 0
      modifies this`used, storage.buf
      ensures Valid() && Contents() == old(Contents()[..Size() - 1])
    {
      Erase(Size() - 1, Size());
    }

    method Put(p: nat, value: T)
      requires Valid() && p < Size()
      modifies storage.buf
      ensures Valid() && Contents() == old(Contents())[p := value]
    {
      storage.buf[p] := value;
    }

    /** Exchanges the storage of two vectors, or leaves one vector as it is. */
    method Swap(other: Prevector<T>)
      requires Valid() && other.Valid() && other.N == N
      modifies this, other
      ensures Valid() && other.Valid()
      ensures Contents() == old(other.Contents()) && other.Contents() == old(Contents())
      ensures storage == old(other.storage) && other.storage == old(storage)
    {
      var s, u := storage, used;
      storage, used := other.storage, other.used;
      other.storage, other.used := s, u;
    }

    method Equals(other: Prevector<T>) returns (r: bool)
      requires Valid() && other.Valid()
      ensures r <==> Contents() == other.Contents()
    {
      if other.Size() != Size() {
        return false;
      }
      var i := 0;
      while i < Size()
        invariant 0 <= i <= Size() && storage.buf[..i] == other.storage.buf[..i]
      {
        if storage.buf[i] != other.storage.buf[i] {
          assert Contents()[i] != other.Contents()[i];
          return false;
        }
        i := i + 1;
      }
      r := true;
    }

    /** The order compares the sizes before the elements. */
    method LessThan(other: Prevector<T>, less: (T, T) -> bool) returns (r: bool)
      requires Valid() && other.Valid()
      ensures r <==> Shortlex(less, Contents(), other.Contents())
    {
      if Size() < other.Size() {
        return true;
      }
      if Size() > other.Size() {
        return false;
      }
      var i := 0;
      ghost var a, b := Contents(), other.Contents();
      assert a[0..] == a && b[0..] == b;
      while i < Size()
        invariant 0 <= i <= Size() && (Lexicographic(less, a, b) <==> Lexicographic(less, a[i..], b[i..]))
      {
        assert a[i..][1..] == a[i + 1..] && b[i..][1..] == b[i + 1..];
        if less(storage.buf[i], other.storage.buf[i]) {
          return true;
        }
        if less(other.storage.buf[i], storage.buf[i]) {
          return false;
        }
        i := i + 1;
      }
      r := false;
    }

    /** One operation does to the contents what it does to a sequence. */
    method Step(op: Op<T>)
      requires Valid() && InBounds(op, Contents())
      modifies this, storage.buf
      ensures Valid() && Contents() == Applied(op, old(Contents()))
      ensures storage.buf == old(storage.buf) || fresh(storage.buf)
    {
      match op
      case AssignOp(n, val) => Assign(n, val);
      case AssignRangeOp(vals, default) => AssignRange(vals, default);
      case ResizeOp(n, default) => Resize(n, default);
      case ReserveOp(n) => Reserve(n);
      case ShrinkOp => ShrinkToFit();
      case InsertOp(p, val) => Insert(p, val);
      case InsertRangeOp(p, vals) => InsertRange(p, vals);
      case EraseOp(first, last) => Erase(first, last);
      case PushOp(val) => PushBack(val);
      case PopOp => PopBack();
      case PutOp(p, val) => Put(p, val);
    }
  }

  /** Copies n elements as if by way of a temporary buffer. */
  method MemMove<T>(buf: array<T>, dst: nat, src: nat, n: nat)
    requires dst + n <= buf.Length && src + n <= buf.Length
    modifies buf
    ensures forall j :: 0 <= j < buf.Length ==>
      buf[j] == if dst <= j < dst + n then old(buf[src + (j - dst)]) else old(buf[j])
  {
    forall i | 0 <= i < n {
      buf[dst + i] := buf[src + i];
    }
  }

  method Fill<T>(buf: array<T>, p: nat, vals: seq<T>)
    requires p + |vals| <= buf.Length
    modifies buf
    ensures buf[..] == old(buf[..p]) + vals + old(buf[p + |vals|..])
  {
    var i := 0;
    while i < |vals|
      invariant 0 <= i <= |vals|
      invariant forall j :: 0 <= j < buf.Length ==> buf[j] == if p <= j < p + i then vals[j - p] else old(buf[j])
    {
      buf[p + i] := vals[i];
      i := i + 1;
    }
  }

  lemma FilledPart<T>(before: seq<T>, after: seq<T>, p: nat, vals: seq<T>, n: nat)
    requires p + |vals| <= n <= |before| && after == before[..p] + vals + before[p + |vals|..]
    ensures after[..n] == before[..n][..p] + vals + before[..n][p + |vals|..]
  {
  }

  function Resized<T>(s: seq<T>, n: nat, default: T): seq<T>
  {
    if n <= |s| then s[..n] else s + seq(n - |s|, _ => default)
  }

  datatype Op<T> =
    | AssignOp(n: nat, val: T)
    | AssignRangeOp(vals: seq<T>, default: T)
    | ResizeOp(n: nat, default: T)
    | ReserveOp(n: nat)
    | ShrinkOp
    | InsertOp(p: nat, val: T)
    | InsertRangeOp(p: nat, vals: seq<T>)
    | EraseOp(first: nat, last: nat)
    | PushOp(val: T)
    | PopOp
    | PutOp(p: nat, val: T)

  /** The positions that an operation names exist. */
  predicate InBounds<T>(op: Op<T>, s: seq<T>)
  {
    match op
    case InsertOp(p, _) => p <= |s|
    case InsertRangeOp(p, _) => p <= |s|
    case EraseOp(first, last) => first <= last <= |s|
    case PopOp => |s| > 0
    case PutOp(p, _) => p < |s|
    case _ => true
  }

  function Applied<T>(op: Op<T>, s: seq<T>): seq<T>
    requires InBounds(op, s)
  {
    match op
    case AssignOp(n, val) => seq(n, _ => val)
    case AssignRangeOp(vals, _) => vals
    case ResizeOp(n, default) => Resized(s, n, default)
    case ReserveOp(_) => s
    case ShrinkOp => s
    case InsertOp(p, val) => s[..p] + [val] + s[p..]
    case InsertRangeOp(p, vals) => s[..p] + vals + s[p..]
    case EraseOp(first, last) => s[..first] + s[last..]
    case PushOp(val) => s + [val]
    case PopOp => s[..|s| - 1]
    case PutOp(p, val) => s[p := val]
  }

  // ---------------------------------------------------------------- runs over several vectors

  /** An operation on one vector of a pool, an assignment from one to another, or an exchange of two. */
  datatype PoolOp<T> = On(i: nat, op: Op<T>) | CopyOp(i: nat, j: nat, default: T) | SwapOp(i: nat, j: nat)

  predicate PoolInBounds<T>(op: PoolOp<T>, ss: seq<seq<T>>)
  {
    match op
    case On(i, o) => i < |ss| && InBounds(o, ss[i])
    case CopyOp(i, j, _) => i < |ss| && j < |ss|
    case SwapOp(i, j) => i < |ss| && j < |ss|
  }

  function PoolApplied<T>(op: PoolOp<T>, ss: seq<seq<T>>): seq<seq<T>>
    requires PoolInBounds(op, ss)
  {
    match op
    case On(i, o) => ss[i := Applied(o, ss[i])]
    case CopyOp(i, j, _) => ss[i := ss[j]]
    case SwapOp(i, j) => ss[i := ss[j]][j := ss[i]]
  }

  predicate AllInBounds<T>(ops: seq<PoolOp<T>>, ss: seq<seq<T>>)
  {
    ops == [] || (PoolInBounds(ops[0], ss) && AllInBounds(ops[1..], PoolApplied(ops[0], ss)))
  }

  function AppliedAll<T>(ops: seq<PoolOp<T>>, ss: seq<seq<T>>): seq<seq<T>>
    requires AllInBounds(ops, ss)
  {
    if ops == [] then ss else AppliedAll(ops[1..], PoolApplied(ops[0], ss))
  }

  ghost function Buffers<T(0)>(pool: seq<Prevector<T>>): set<array<T>>
    reads pool
  {
    set v | v in pool :: v.storage.buf
  }

  /** Different vectors of one kind, no two of which share their storage. */
  ghost predicate Separate<T(0)>(pool: seq<Prevector<T>>)
    reads pool
  {
    && (forall v, w :: v in pool && w in pool ==> v.N == w.N)
    && (forall v :: v in pool ==> v.Valid())
    && (forall i, j :: 0 <= i < j < |pool| ==> pool[i] != pool[j] && pool[i].storage.buf != pool[j].storage.buf)
  }

  /** The vectors hold the given sequences. */
  ghost predicate Holds<T(0)>(pool: seq<Prevector<T>>, ss: seq<seq<T>>)
    reads pool, Buffers(pool)
  {
    Separate(pool) && |pool| == |ss| && forall i :: 0 <= i < |pool| ==> pool[i].Contents() == ss[i]
  }

  method StepOne<T(0,==)>(pool: seq<Prevector<T>>, i: nat, op: Op<T>, ghost ss: seq<seq<T>>)
    requires Holds(pool, ss) && i < |pool| && InBounds(op, ss[i])
    modifies pool, Buffers(pool)
    ensures Holds(pool, ss[i := Applied(op, ss[i])])
    ensures forall b :: b in Buffers(pool) ==> b in old(Buffers(pool)) || fresh(b)
  {
    hide Applied, InBounds;
    var v := pool[i];
    ghost var others := set w | w in pool && w != v;
    v.Step(op);
    assert forall w :: w in others ==> w.storage == old(w.storage) && w.storage.buf[..] == old(w.storage.buf[..]);
  }

  method CopyOne<T(0,==)>(pool: seq<Prevector<T>>, i: nat, j: nat, default: T, ghost ss: seq<seq<T>>)
    requires Holds(pool, ss) && i < |pool| && j < |pool|
    modifies pool, Buffers(pool)
    ensures Holds(pool, ss[i := ss[j]])
    ensures forall b :: b in Buffers(pool) ==> b in old(Buffers(pool)) || fresh(b)
  {
    var v := pool[i];
    ghost var others := set w | w in pool && w != v;
    v.CopyFrom(pool[j], default);
    assert forall w :: w in others ==> w.storage == old(w.storage) && w.storage.buf[..] == old(w.storage.buf[..]);
  }

  method SwapTwo<T(0,==)>(pool: seq<Prevector<T>>, i: nat, j: nat, ghost ss: seq<seq<T>>)
    requires Holds(pool, ss) && i < |pool| && j < |pool|
    modifies pool
    ensures Holds(pool, ss[i := ss[j]][j := ss[i]])
    ensures Buffers(pool) == old(Buffers(pool))
  {
    var v, w := pool[i], pool[j];
    v.Swap(w);
    assert forall u :: u in pool && u != v && u != w ==> u.storage == old(u.storage);
  }

  method PoolStep<T(0,==)>(pool: seq<Prevector<T>>, op: PoolOp<T>, ghost ss: seq<seq<T>>)
    requires Holds(pool, ss) && PoolInBounds(op, ss)
    modifies pool, Buffers(pool)
    ensures Holds(pool, PoolApplied(op, ss))
    ensures forall b :: b in Buffers(pool) ==> b in old(Buffers(pool)) || fresh(b)
  {
    hide Applied, InBounds;
    match op
    case On(i, o) => StepOne(pool, i, o, ss);
    case CopyOp(i, j, default) => CopyOne(pool, i, j, default, ss);
    case SwapOp(i, j) => SwapTwo(pool, i, j, ss);
  }

  /** Every run over a pool of vectors does to their contents what it does to sequences, and keeps them separate. */
  method Run<T(0,==)>(pool: seq<Prevector<T>>, ops: seq<PoolOp<T>>, ghost ss: seq<seq<T>>)
    requires Holds(pool, ss) && AllInBounds(ops, ss)
    modifies pool, Buffers(pool)
    ensures Holds(pool, AppliedAll(ops, ss))
    ensures forall b :: b in Buffers(pool) ==> b in old(Buffers(pool)) || fresh(b)
  {
    var i := 0;
    ghost var now := ss;
    assert ops[0..] == ops;
    while i < |ops|
      invariant 0 <= i <= |ops| && Holds(pool, now)
      invariant AllInBounds(ops[i..], now) && AppliedAll(ops[i..], now) == AppliedAll(ops, ss)
      invariant forall b :: b in Buffers(pool) ==> b in old(Buffers(pool)) || fresh(b)
    {
      assert ops[i..][1..] == ops[i + 1..];
      PoolStep(pool, ops[i], now);
      now := PoolApplied(ops[i], now);
      i := i + 1;
    }
  }

  // ---------------------------------------------------------------- the order

  predicate Lexicographic<T(==)>(less: (T, T) -> bool, a: seq<T>, b: seq<T>)
  {
    if a == [] then b != []
    else b != [] && (less(a[0], b[0]) || (!less(b[0], a[0]) && Lexicographic(less, a[1..], b[1..])))
  }

  predicate Shortlex<T(==)>(less: (T, T) -> bool, a: seq<T>, b: seq<T>)
  {
    |a| < |b| || (|a| == |b| && Lexicographic(less, a, b))
  }

  ghost predicate TotalOrder<T(!new)>(less: (T, T) -> bool)
  {
    && (forall x :: !less(x, x))
    && (forall x, y :: less(x, y) || less(y, x) || x == y)
    && (forall x, y, z :: less(x, y) && less(y, z) ==> less(x, z))
  }

  lemma {:induction false} LexicographicOrder<T(!new)>(less: (T, T) -> bool, a: seq<T>, b: seq<T>, c: seq<T>)
    requires TotalOrder(less) && |a| == |b| == |c|
    ensures !Lexicographic(less, a, a)
    ensures Lexicographic(less, a, b) || Lexicographic(less, b, a) || a == b
    ensures Lexicographic(less, a, b) && Lexicographic(less, b, c) ==> Lexicographic(less, a, c)
  {
    if a != [] {
      LexicographicOrder(less, a[1..], b[1..], c[1..]);
      if a[0] == b[0] && a[1..] == b[1..] {
        assert a == [a[0]] + a[1..] && b == [b[0]] + b[1..];
      }
    }
  }

  /** The order of vectors is a total order whenever the order of the elements is one. */
  lemma ShortlexOrder<T(!new)>(less: (T, T) -> bool, a: seq<T>, b: seq<T>, c: seq<T>)
    requires TotalOrder(less)
    ensures !Shortlex(less, a, a)
    ensures Shortlex(less, a, b) || Shortlex(less, b, a) || a == b
    ensures Shortlex(less, a, b) && Shortlex(less, b, c) ==> Shortlex(less, a, c)
  {
    LexicographicOrder(less, a, a, a);
    if |a| == |b| {
      LexicographicOrder(less, a, b, b);
      if |b| == |c| {
        LexicographicOrder(less, a, b, c);
      }
    }
  }

  lemma {:induction false} AgainstLonger<T(!new)>(less: (T, T) -> bool, a: seq<T>, b: seq<T>)
    requires TotalOrder(less) && |a| < |b|
    ensures Lexicographic(less, a, b) <==> !Lexicographic(less, b[..|a|], a)
  {
    if a != [] {
      AgainstLonger(less, a[1..], b[1..]);
      assert b[..|a|][1..] == b[1..][..|a| - 1];
    }
  }

  lemma {:induction false} AgainstShorter<T(!new)>(less: (T, T) -> bool, a: seq<T>, b: seq<T>)
    requires TotalOrder(less) && |a| > |b|
    ensures Lexicographic(less, a, b) <==> Lexicographic(less, a[..|b|], b)
  {
    if b != [] {
      AgainstShorter(less, a[1..], b[1..]);
      assert a[..|b|][1..] == a[1..][..|b| - 1];
    }
  }

  /**
  The order of std::vector is lexicographic. The two agree exactly on vectors of one size
  and where cutting the longer one to the size of the shorter does not make it the smaller.
  */
  lemma OrdersAgree<T(!new)>(less: (T, T) -> bool, a: seq<T>, b: seq<T>)
    requires TotalOrder(less)
    ensures (Shortlex(less, a, b) <==> Lexicographic(less, a, b)) <==>
      || |a| == |b|
      || (|a| < |b| && !Lexicographic(less, b[..|a|], a))
      || (|a| > |b| && !Lexicographic(less, a[..|b|], b))
  {
    if |a| < |b| {
      AgainstLonger(less, a, b);
    } else if |a| > |b| {
      AgainstShorter(less, a, b);
    }
  }

  /** Two vectors on which they differ. */
  lemma NotLexicographic()
    ensures var less := (x: int, y: int) => x < y;
      Shortlex(less, [2], [1, 1]) && !Lexicographic(less, [2], [1, 1])
  {
  }
}
