/** The per-pump sync.Pool of packet buffers, with getBuf and putBuf.
    A buffer is named by its position in `mem`, so that two holders of one buffer share its
    bytes. sync.Pool hands out any pooled buffer or a new one, as it likes. */
module BufferPool {
  import opened Errors
  import opened Bytes

  /** `free` is what the pool holds; the same buffer can be in it more than once. */
  datatype Pool = Pool(size: nat, mem: seq<seq<byte>>, free: multiset<nat>)

  /** newBufferPool. */
  function New(sliceSize: int): Pool {
    Pool(if sliceSize < 1 then 1 else sliceSize, [], multiset{})
  }

  function Alloc(p: Pool, n: nat): (Pool, nat) {
    (p.(mem := p.mem + [Zeros(n)]), |p.mem|)
  }

  /** pool.Get: the chosen pooled buffer, or a new one of the nominal size. */
  predicate CanTake(p: Pool, choice: Option<nat>) {
    choice.Some? ==> choice.value in p.free && choice.value < |p.mem|
  }

  function Take(p: Pool, choice: Option<nat>): (r: (Pool, nat))
    requires CanTake(p, choice)
    ensures r.1 < |r.0.mem|
  {
    if choice.None? then Alloc(p, p.size)
    else (p.(free := p.free - multiset{choice.value}), choice.value)
  }

  /** The buffer pool.Get yields is shorter than the caller wants. */
  predicate TooSmall(p: Pool, choice: Option<nat>, want: nat)
    requires CanTake(p, choice)
  {
    var (q, b) := Take(p, choice);
    |q.mem[b]| < want
  }

  function Release(p: Pool, b: nat): Pool {
    p.(free := p.free + multiset{b})
  }

  /** getBuf. When the pooled buffer is too small, the new one is put into the pool and
      handed out as well. */
  function Obtain(p: Pool, choice: Option<nat>, want: nat): (r: (Pool, nat))
    requires CanTake(p, choice)
    ensures r.1 < |r.0.mem| && |r.0.mem[r.1]| >= want
  {
    var (q, b) := Take(p, choice);
    if |q.mem[b]| < want then
      var (q', b') := Alloc(q, want);
      (Release(q', b'), b')
    else (q, b)
  }

  /** Overwrite the first |data| bytes of buffer `b`. */
  function Store(p: Pool, b: nat, data: seq<byte>): (q: Pool)
    requires b < |p.mem| && |data| <= |p.mem[b]|
    ensures |q.mem| == |p.mem| && |q.mem[b]| == |p.mem[b]| && q.mem[b][..|data|] == data
    ensures q.mem[b][|data|..] == p.mem[b][|data|..] && q.size == p.size && q.free == p.free
    ensures forall i :: 0 <= i < |p.mem| && i != b ==> q.mem[i] == p.mem[i]
  {
    p.(mem := p.mem[b := data + p.mem[b][|data|..]])
  }

  /** Every pooled buffer exists and has at least the nominal capacity. */
  predicate Sound(p: Pool) {
    && p.size >= 1
    && forall b :: b in p.free ==> b < |p.mem| && |p.mem[b]| >= p.size
  }

  /** `b`, if any, is a buffer of at least the nominal capacity. */
  predicate Usable(p: Pool, b: Option<nat>) {
    b.Some? ==> b.value < |p.mem| && |p.mem[b.value]| >= p.size
  }

  /** Every buffer has at most one owner: the pool (once), the up loop or the down loop. */
  predicate Exclusive(p: Pool, up: Option<nat>, down: Option<nat>) {
    && (forall b :: b in p.free ==> p.free[b] == 1)
    && (up.Some? ==> up.value !in p.free)
    && (down.Some? ==> down.value !in p.free)
    && (up.Some? && down.Some? ==> up.value != down.value)
  }

  /** All buffers have exactly the nominal capacity. */
  predicate Uniform(p: Pool) {
    forall i :: 0 <= i < |p.mem| ==> |p.mem[i]| == p.size
  }

  /** getBuf yields a usable buffer and disturbs no other. */
  lemma ObtainSound(p: Pool, choice: Option<nat>, want: nat, other: Option<nat>)
    requires Sound(p) && Usable(p, other) && CanTake(p, choice)
    ensures var (q, b) := Obtain(p, choice, want);
            && Sound(q) && Usable(q, other) && Usable(q, Some(b))
            && (other.Some? ==> q.mem[other.value] == p.mem[other.value])
  {
  }

  /** Exclusive ownership survives getBuf exactly when the pooled buffer is large enough. */
  lemma ObtainKeepsExclusive(p: Pool, choice: Option<nat>, want: nat, other: Option<nat>)
    requires Sound(p) && Usable(p, other) && CanTake(p, choice) && Exclusive(p, None, other)
    ensures var (q, b) := Obtain(p, choice, want);
            Exclusive(q, Some(b), other) <==> !TooSmall(p, choice, want)
  {
  }

  /** While all buffers have the nominal size and no more is asked for, none is ever too small. */
  lemma UniformIsEnough(p: Pool, choice: Option<nat>, want: nat)
    requires Uniform(p) && want <= p.size && CanTake(p, choice)
    ensures !TooSmall(p, choice, want) && Uniform(Obtain(p, choice, want).0)
  {
  }

  lemma StoreSound(p: Pool, b: nat, data: seq<byte>, other: Option<nat>)
    requires Sound(p) && Usable(p, Some(b)) && Usable(p, other) && |data| <= |p.mem[b]|
    ensures var q := Store(p, b, data);
            && Sound(q) && Usable(q, Some(b)) && Usable(q, other) && q.free == p.free
            && (other.Some? && other.value != b ==> q.mem[other.value] == p.mem[other.value])
            && (Uniform(p) ==> Uniform(q))
  {
  }

  lemma ReleaseSound(p: Pool, b: nat, other: Option<nat>)
    requires Sound(p) && Usable(p, Some(b)) && Usable(p, other)
    ensures var q := Release(p, b);
            && Sound(q) && Usable(q, other) && q.mem == p.mem
            && (Exclusive(p, Some(b), other) ==> Exclusive(q, None, other))
  {
  }

  /** The pool as an object, refining the functions above. */
  class SyncPool {
    const size: nat
    var mem: seq<seq<byte>>
    var free: multiset<nat>

    ghost function View(): Pool
      reads this
    {
      Pool(size, mem, free)
    }

    constructor (sliceSize: int)
      ensures View() == New(sliceSize) && Sound(View())
    {
      size, mem, free := if sliceSize < 1 then 1 else sliceSize, [], multiset{};
    }

    method GetBuf(want: nat) returns (b: nat)
      requires Sound(View())
      modifies this
      ensures Sound(View())
      ensures exists choice :: CanTake(old(View()), choice) && (View(), b) == Obtain(old(View()), choice, want)
    {
      ghost var before := View();
      ghost var choice: Option<nat> := None;
      var reuse: bool := *;
      if reuse && |free| > 0 {
        b :| b in free;
        free := free - multiset{b};
        choice := Some(b);
      } else {
        b := |mem|;
        mem := mem + [Zeros(size)];
      }
      assert (View(), b) == Take(before, choice);
      if |mem[b]| < want {
        b := |mem|;
        mem := mem + [Zeros(want)];
        free := free + multiset{b};
      }
      assert CanTake(before, choice) && (View(), b) == Obtain(before, choice, want);
    }

    method PutBuf(b: nat)
      requires Sound(View()) && b < |mem| && |mem[b]| >= size
      modifies this
      ensures Sound(View()) && View() == Release(old(View()), b)
    {
      free := free + multiset{b};
    }
  }
}
