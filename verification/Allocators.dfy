/**
 * Remote memory allocation: chunks of one memory node handed out by its directory, log-structured
 * local allocators refilled from them, and the lock-free bump allocator of the CXL transport.
 * Addresses are offsets on one memory node; offset 0 is the null address.
 */
module Allocators {
  import opened Arith
  import opened Basics

  const ChunkSize: nat := 0x100_0000

  /** The bytes start .. start + size. */
  datatype Block = Block(start: nat, size: nat)

  predicate Apart(a: Block, b: Block) {
    a.size == 0 || b.size == 0 || a.start + a.size <= b.start || b.start + b.size <= a.start
  }

  predicate Inside(a: Block, b: Block) {
    b.start <= a.start && a.start + a.size <= b.start + b.size
  }

  /** The next multiple of the alignment. */
  function RoundUp(x: nat, align: nat): (r: nat)
    requires align >= 1
    ensures x <= r < x + align && r % align == 0
  {
    var q := (x + align - 1) / align;
    assert x + align - 1 == q * align + (x + align - 1) % align;
    DivisionUnique(align, q * align, q, 0);
    q * align
  }

  // ---- the local allocator ----

  datatype Local = Local(head: nat, cur: nat, free: seq<Block>) {
    /** The part of the current chunk not handed out yet. */
    function Rest(): (b: Block) {
      if head == 0 || cur > head + ChunkSize then Block(head, 0) else Block(cur, head + ChunkSize - cur)
    }
  }

  datatype Taken = Taken(local: Local, addr: nat, need: bool)

  /** The first free block that is large enough, or the list's length. */
  function FirstFit(free: seq<Block>, size: nat): (k: nat)
    ensures k <= |free| && forall i :: 0 <= i < k ==> free[i].size < size
    ensures k < |free| ==> free[k].size >= size
  {
    if free == [] || free[0].size >= size then 0 else 1 + FirstFit(free[1..], size)
  }

  predicate FitsRest(l: Local, size: nat, align: nat)
    requires align >= 1
  {
    l.head != 0 && RoundUp(l.cur, align) + size <= l.head + ChunkSize
  }

  function Take(l: Local, size: nat, align: nat): Taken
    requires align >= 1
  {
    var cur := RoundUp(l.cur, align);
    var k := FirstFit(l.free, size);
    if FitsRest(l, size, align) then
      Taken(l.(cur := cur + size), cur, false)
    else if k < |l.free| then
      Taken(l.(cur := cur, free := l.free[..k] + l.free[k + 1..]), l.free[k].start, false)
    else
      Taken(l.(cur := cur), cur, true)
  }

  /** A block cut from the chunk is the nearest aligned one, and the cursor ends right behind it. */
  lemma TakeCuts(l: Local, size: nat, align: nat)
    requires align >= 1 && FitsRest(l, size, align)
    ensures var t := Take(l, size, align);
            && !t.need && t.addr % align == 0 && l.cur <= t.addr < l.cur + align
            && t.local == l.(cur := t.addr + size) && t.addr + size <= l.head + ChunkSize
  {}

  predicate HasFree(l: Local, size: nat) {
    exists i :: 0 <= i < |l.free| && l.free[i].size >= size
  }

  /** When the chunk has no room, the first free block that is large enough is given out and leaves the list. */
  lemma TakeReuses(l: Local, size: nat, align: nat) returns (k: nat)
    requires align >= 1 && !FitsRest(l, size, align) && HasFree(l, size)
    ensures k < |l.free| && l.free[k].size >= size && forall i :: 0 <= i < k ==> l.free[i].size < size
    ensures var t := Take(l, size, align);
            && !t.need && t.addr == l.free[k].start && t.local.head == l.head
            && t.local.free == l.free[..k] + l.free[k + 1..]
            && multiset(t.local.free) + multiset{l.free[k]} == multiset(l.free)
  {
    k := FirstFit(l.free, size);
    assert l.free == l.free[..k] + [l.free[k]] + l.free[k + 1..];
  }

  /** The list grows at its end. */
  function Freed(l: Local, b: Block): Local {
    l.(free := l.free + [b])
  }

  class LocalAllocator {
    var head: nat
    var cur: nat
    var freeList: seq<Block>

    function State(): Local
      reads this
    {
      Local(head, cur, freeList)
    }

    constructor ()
      ensures State() == Local(0, 0, [])
    {
      head, cur, freeList := 0, 0, [];
    }

    /** `malloc`. */
    method Malloc(size: nat, align: nat) returns (res: nat, needChunk: bool)
      requires align >= 1
      modifies this
      ensures Taken(State(), res, needChunk) == Take(old(State()), size, align)
    {
      cur := RoundUp(cur, align);
      res := cur;
      if head == 0 || cur + size > head + ChunkSize {
        needChunk := true;
      } else {
        needChunk := false;
        cur := cur + size;
      }
      if needChunk {
        var i := 0;
        ghost var free := freeList;
        assert free[0..] == free;
        while i < |freeList|
          invariant 0 <= i <= |freeList| && freeList == free && needChunk
          invariant FirstFit(free, size) == i + FirstFit(free[i..], size)
          invariant head == old(head) && cur == res == RoundUp(old(cur), align)
        {
          if freeList[i].size >= size {
            res, needChunk := freeList[i].start, false;
            freeList := freeList[..i] + freeList[i + 1..];
            return;
          }
          assert free[i..][1..] == free[i + 1..];
          i := i + 1;
        }
      }
    }

    /** `set_chunck`. */
    method SetChunk(addr: nat)
      modifies this
      ensures State() == old(State()).(head := addr, cur := addr)
    {
      head, cur := addr, addr;
    }

    /** `free`. */
    method Free(addr: nat, size: nat)
      modifies this
      ensures State() == Freed(old(State()), Block(addr, size))
    {
      freeList := freeList + [Block(addr, size)];
    }
  }

  /** The directory's chunk allocator. Chunk 0 holds the root pointer and is never handed out. */
  class GlobalAllocator {
    const start: nat
    const bitmap: array<bool>
    var tail: nat

    ghost predicate Valid()
      reads this, bitmap
    {
      1 <= tail <= bitmap.Length && forall i :: tail <= i < bitmap.Length ==> !bitmap[i]
    }

    constructor (start: nat, size: nat)
      requires size >= ChunkSize
      ensures Valid() && fresh(bitmap) && tail == 1 && this.start == start && bitmap.Length == size / ChunkSize
    {
      DivAtLeast(ChunkSize, size, 1);
      this.start := start;
      bitmap := new bool[size / ChunkSize](i => i == 0);
      tail := 1;
    }

    /** `alloc_chunck`. None is the out-of-memory assertion; the one about a used chunk never fires. */
    method AllocChunk() returns (res: Option<nat>)
      requires Valid()
      modifies this, bitmap
      ensures Valid()
      ensures res.None? <==> old(tail) == bitmap.Length
      ensures res.None? ==> tail == old(tail)
      ensures res.Some? ==> res.value == start + old(tail) * ChunkSize && tail == old(tail) + 1
    {
      if tail >= bitmap.Length {
        return None;
      }
      assert !bitmap[tail];
      bitmap[tail] := true;
      res := Some(start + tail * ChunkSize);
      tail := tail + 1;
    }
  }

  datatype Given = Given(local: Local, tail: nat, addr: nat)

  /** `DSM::alloc`. The second attempt's address is used whether or not it found room. */
  function DsmTake(l: Local, tail: nat, limit: nat, size: nat, align: nat): (g: Option<Given>)
    requires align >= 1
  {
    var a := Take(l, size, align);
    if !a.need then Some(Given(a.local, tail, a.addr))
    else if tail >= limit then None
    else
      var b := Take(a.local.(head := tail * ChunkSize, cur := tail * ChunkSize), size, align);
      Some(Given(b.local, tail + 1, b.addr))
  }

  /** What a client gets: a new chunk is taken exactly when neither the rest of the old one nor a free block has room, and
      the address is aligned exactly when it is not that of a free block, or of a free block that happens to be aligned. */
  lemma DsmTakeExact(l: Local, tail: nat, limit: nat, size: nat, align: nat)
    requires align >= 1 && DsmTake(l, tail, limit, size, align).Some?
    ensures var g := DsmTake(l, tail, limit, size, align).value;
            && g.tail == (if FitsRest(l, size, align) || HasFree(l, size) then tail else tail + 1)
            && (g.addr % align == 0 <==>
                  FitsRest(l, size, align) || !HasFree(l, size) || l.free[FirstFit(l.free, size)].start % align == 0)
            && (FitsRest(l, size, align) ==> l.cur <= g.addr < l.cur + align && g.local.cur == g.addr + size)
            && (g.tail == tail + 1 ==> tail * ChunkSize <= g.addr < tail * ChunkSize + align && g.local.head == tail * ChunkSize)
  {
    var a := Take(l, size, align);
    if a.need {
      var fresh' := a.local.(head := tail * ChunkSize, cur := tail * ChunkSize);
      assert FirstFit(fresh'.free, size) == |fresh'.free|;
    }
  }

  method DsmAlloc(local: LocalAllocator, dir: GlobalAllocator, size: nat, align: nat) returns (res: Option<nat>)
    requires dir.Valid() && dir.start == 0 && align >= 1
    modifies local, dir, dir.bitmap
    ensures dir.Valid()
    ensures res.None? <==> DsmTake(old(local.State()), old(dir.tail), dir.bitmap.Length, size, align).None?
    ensures res.Some? ==> Some(Given(local.State(), dir.tail, res.value)) ==
                          DsmTake(old(local.State()), old(dir.tail), dir.bitmap.Length, size, align)
  {
    var addr, needChunk := local.Malloc(size, align);
    if needChunk {
      var chunk := dir.AllocChunk();
      if chunk.None? {
        return None;
      }
      local.SetChunk(chunk.value);
      addr, needChunk := local.Malloc(size, align);
    }
    return Some(addr);
  }

  // ---- a memory node with all its clients' allocators ----

  /** `tail` and `limit` are the directory's; `live` the blocks callers hold. */
  datatype Node = Node(tail: nat, limit: nat, locals: seq<Local>, live: map<nat, Block>)

  /** Everything that owns bytes. */
  datatype Owner = Held(id: nat) | Spare(who: nat, at: nat) | Open(who: nat)

  predicate Owns(s: Node, o: Owner) {
    match o
    case Held(id) => id in s.live
    case Spare(who, at) => who < |s.locals| && at < |s.locals[who].free|
    case Open(who) => who < |s.locals|
  }

  function Region(s: Node, o: Owner): Block
    requires Owns(s, o)
  {
    match o
    case Held(id) => s.live[id]
    case Spare(who, at) => s.locals[who].free[at]
    case Open(who) => s.locals[who].Rest()
  }

  predicate InPool(b: Block, tail: nat) {
    b.size == 0 || (ChunkSize <= b.start && b.start + b.size <= tail * ChunkSize)
  }

  /** No byte has two owners. The directory owns the first chunk and all chunks from the tail on, which is what `InPool`
      says. */
  ghost predicate Inv(s: Node) {
    && s.tail >= 1
    && (forall o {:trigger Owns(s, o)} | Owns(s, o) :: InPool(Region(s, o), s.tail))
    && (forall o, p {:trigger Owns(s, o), Owns(s, p)} | Owns(s, o) && Owns(s, p) && o != p ::
          Apart(Region(s, o), Region(s, p)))
  }

  function Started(limit: nat, clients: nat): (s: Node) {
    Node(1, limit, seq(clients, i => Local(0, 0, [])), map[])
  }

  lemma StartedInv(limit: nat, clients: nat)
    ensures Inv(Started(limit, clients))
  {
    var s := Started(limit, clients);
    forall o | Owns(s, o) ensures Region(s, o).size == 0 {
    }
  }

  /** Owners only give up bytes or pass them on: every region lies inside an old one, and two that come
      from the same one are apart. */
  lemma Inherit(s: Node, t: Node, from: Owner --> Owner)
    requires Inv(s) && t.tail == s.tail
    requires forall o {:trigger Owns(t, o)} | Owns(t, o) ::
               from.requires(o) && Owns(s, from(o)) && (Inside(Region(t, o), Region(s, from(o))) || Region(t, o).size == 0)
    requires forall o, p {:trigger Owns(t, o), Owns(t, p)} | Owns(t, o) && Owns(t, p) && o != p ::
               from(o) != from(p) || Apart(Region(t, o), Region(t, p))
    ensures Inv(t)
  {
  }

  function WithLocal(s: Node, who: nat, l: Local): (t: Node)
    requires who < |s.locals|
  {
    s.(locals := s.locals[who := l])
  }

  /** A client's allocation; `id` names the new block. None is running out of chunks. */
  function Alloc(s: Node, who: nat, id: nat, size: nat, align: nat): (t: Option<Node>)
    requires who < |s.locals| && align >= 1
  {
    match DsmTake(s.locals[who], s.tail, s.limit, size, align)
    case None => None
    case Some(g) => Some(WithLocal(s, who, g.local).(tail := g.tail, live := s.live[id := Block(g.addr, size)]))
  }

  /** The caller holds a block of the size it asked for, at the address `DSM::alloc` gave; all other blocks stay. */
  lemma BlockGiven(s: Node, who: nat, id: nat, size: nat, align: nat)
    requires who < |s.locals| && align >= 1 && id !in s.live && Alloc(s, who, id, size, align).Some?
    ensures var t, l := Alloc(s, who, id, size, align).value, s.locals[who];
            && t.live.Keys == s.live.Keys + {id} && t.live[id].size == size && (forall i :: i in s.live ==> t.live[i] == s.live[i])
            && (t.live[id].start % align == 0 <==>
                  FitsRest(l, size, align) || !HasFree(l, size) || l.free[FirstFit(l.free, size)].start % align == 0)
  {
    DsmTakeExact(s.locals[who], s.tail, s.limit, size, align);
  }

  /** `DSM::free` of a block that is held, with its own size. */
  function Release(s: Node, who: nat, id: nat): (t: Node)
    requires who < |s.locals| && id in s.live
  {
    WithLocal(s, who, Freed(s.locals[who], s.live[id])).(live := s.live - {id})
  }

  lemma ReleaseInv(s: Node, who: nat, id: nat)
    requires Inv(s) && who < |s.locals| && id in s.live
    ensures Inv(Release(s, who, id))
  {
    var n := |s.locals[who].free|;
    Inherit(s, Release(s, who, id), o => if o == Spare(who, n) then Held(id) else o);
  }

  lemma RefillInv(s: Node, who: nat)
    requires Inv(s) && who < |s.locals|
    ensures Inv(Refilled(s, who))
  {
    var t := Refilled(s, who);
    forall o | Owns(t, o)
      ensures InPool(Region(t, o), t.tail) && (o != Open(who) ==> Owns(s, o) && Region(t, o) == Region(s, o))
    {
      if o == Open(who) {
        assert Region(t, o) == Block(s.tail * ChunkSize, ChunkSize);
        assert t.tail * ChunkSize == s.tail * ChunkSize + ChunkSize;
      } else {
        assert Owns(s, o) && InPool(Region(s, o), s.tail);
      }
    }
  }

  function Refilled(s: Node, who: nat): (t: Node)
    requires who < |s.locals|
  {
    var chunk := s.tail * ChunkSize;
    WithLocal(s, who, s.locals[who].(head := chunk, cur := chunk)).(tail := s.tail + 1)
  }

  /** Cutting an aligned block off the current chunk. */
  lemma CarveInv(s: Node, who: nat, id: nat, size: nat, align: nat)
    requires Inv(s) && who < |s.locals| && id !in s.live && align >= 1
    requires FitsRest(s.locals[who], size, align)
    ensures Inv(Carved(s, who, id, size, align))
  {
    Inherit(s, Carved(s, who, id, size, align), o => if o == Held(id) then Open(who) else o);
  }

  function Carved(s: Node, who: nat, id: nat, size: nat, align: nat): (t: Node)
    requires who < |s.locals| && align >= 1
  {
    var r := RoundUp(s.locals[who].cur, align);
    WithLocal(s, who, s.locals[who].(cur := r + size)).(live := s.live[id := Block(r, size)])
  }

  /** Reusing a freed block that is at least as large. */
  lemma ReuseInv(s: Node, who: nat, id: nat, size: nat, k: nat)
    requires Inv(s) && who < |s.locals| && id !in s.live
    requires k < |s.locals[who].free| && s.locals[who].free[k].size >= size
    ensures Inv(Reused(s, who, id, size, k))
  {
    Inherit(s, Reused(s, who, id, size, k), o => Before(o, who, id, k));
  }

  function Before(o: Owner, who: nat, id: nat, k: nat): (p: Owner) {
    if o == Held(id) then Spare(who, k)
    else if o.Spare? && o.who == who && o.at >= k then Spare(who, o.at + 1)
    else o
  }

  function Reused(s: Node, who: nat, id: nat, size: nat, k: nat): (t: Node)
    requires who < |s.locals| && k < |s.locals[who].free|
  {
    var l := s.locals[who];
    WithLocal(s, who, l.(free := l.free[..k] + l.free[k + 1..])).(live := s.live[id := Block(l.free[k].start, size)])
  }

  function Aligned(s: Node, who: nat, align: nat): (t: Node)
    requires who < |s.locals| && align >= 1
  {
    WithLocal(s, who, s.locals[who].(cur := RoundUp(s.locals[who].cur, align)))
  }

  /** Rounding the cursor up, also past the chunk's end, only gives up bytes. */
  lemma AlignedInv(s: Node, who: nat, align: nat)
    requires Inv(s) && who < |s.locals| && align >= 1
    ensures Inv(Aligned(s, who, align))
  {
    Inherit(s, Aligned(s, who, align), o => o);
  }

  /** What a caller can check: the rest of the chunk, a free block or a fresh chunk has room. */
  predicate Placeable(s: Node, who: nat, size: nat, align: nat)
    requires who < |s.locals| && align >= 1
  {
    || size == 0
    || FitsRest(s.locals[who], size, align)
    || HasFree(s.locals[who], size)
    || RoundUp(s.tail * ChunkSize, align) + size <= s.tail * ChunkSize + ChunkSize
  }

  /** Requests up to a chunk, aligned to a divisor of the chunk size, always are placeable. */
  lemma SmallRequests(s: Node, who: nat, size: nat, align: nat)
    requires who < |s.locals| && align >= 1 && ChunkSize % align == 0 && size <= ChunkSize
    ensures Placeable(s, who, size, align)
  {
    var chunk := s.tail * ChunkSize;
    var q := ChunkSize / align;
    assert ChunkSize == q * align;
    assert chunk == (s.tail * q) * align;
    var r := RoundUp(chunk, align);
    DivisionUnique(align, chunk, s.tail * q, 0);
    var d := r / align - chunk / align;
    assert r - chunk == d * align by { assert r == r / align * align; }
    MulSign(d, align);
  }

  /** No byte gets two owners, the directory's chunks from the tail on and the reserved first one counted as owned,
      exactly when the request is placeable. */
  lemma AllocExact(s: Node, who: nat, id: nat, size: nat, align: nat)
    requires Inv(s) && who < |s.locals| && id !in s.live && align >= 1
    requires Alloc(s, who, id, size, align).Some?
    ensures Inv(Alloc(s, who, id, size, align).value) <==> Placeable(s, who, size, align)
  {
    NeedIff(s.locals[who], size, align);
    if Take(s.locals[who], size, align).need {
      AllocFresh(s, who, id, size, align);
    } else {
      AllocInPlace(s, who, id, size, align);
    }
  }

  lemma NeedIff(l: Local, size: nat, align: nat)
    requires align >= 1
    ensures Take(l, size, align).need <==> !FitsRest(l, size, align) && !HasFree(l, size)
  {}

  lemma AllocInPlace(s: Node, who: nat, id: nat, size: nat, align: nat)
    requires Inv(s) && who < |s.locals| && id !in s.live && align >= 1
    requires !Take(s.locals[who], size, align).need
    ensures Inv(Alloc(s, who, id, size, align).value)
  {
    var t := Alloc(s, who, id, size, align).value;
    if FitsRest(s.locals[who], size, align) {
      CarveInv(s, who, id, size, align);
      assert t == Carved(s, who, id, size, align);
    } else {
      var u := Aligned(s, who, align);
      var k := FirstFit(s.locals[who].free, size);
      AlignedInv(s, who, align);
      ReuseInv(u, who, id, size, k);
      assert t == Reused(u, who, id, size, k);
    }
  }

  lemma AllocFresh(s: Node, who: nat, id: nat, size: nat, align: nat)
    requires Inv(s) && who < |s.locals| && id !in s.live && align >= 1
    requires Take(s.locals[who], size, align).need && s.tail < s.limit
    ensures Inv(Alloc(s, who, id, size, align).value) <==> Placeable(s, who, size, align)
  {
    NeedIff(s.locals[who], size, align);
    var t := Alloc(s, who, id, size, align).value;
    var u := Refilled(s, who);
    RefillInv(s, who);
    var chunk := s.tail * ChunkSize;
    if FitsRest(u.locals[who], size, align) {
      CarveInv(u, who, id, size, align);
      assert t == Carved(u, who, id, size, align);
    } else if size == 0 {
      AlignedInv(u, who, align);
      EmptyHeld(Aligned(u, who, align), id, RoundUp(chunk, align));
      assert t == Aligned(u, who, align).(live := t.live);
    } else {
      assert Owns(t, Held(id)) && Region(t, Held(id)) == Block(RoundUp(chunk, align), size);
    }
  }

  lemma EmptyHeld(s: Node, id: nat, at: nat)
    requires Inv(s) && id !in s.live
    ensures Inv(s.(live := s.live[id := Block(at, 0)]))
  {
    var t := s.(live := s.live[id := Block(at, 0)]);
    forall o | Owns(t, o) ensures o == Held(id) || (Owns(s, o) && Region(t, o) == Region(s, o)) {
    }
  }

  // ---- runs ----

  datatype Request = Get(who: nat, id: nat, size: nat, align: nat) | Give(who: nat, id: nat)

  ghost predicate Next(s: Node, r: Request, t: Node) {
    r.who < |s.locals| &&
    match r
    case Get(who, id, size, align) => align >= 1 && id !in s.live && Alloc(s, who, id, size, align) == Some(t)
    case Give(who, id) => id in s.live && t == Release(s, who, id)
  }

  ghost predicate IsRun(run: seq<Node>, requests: seq<Request>) {
    && |run| == |requests| + 1
    && (exists limit, clients :: run[0] == Started(limit, clients))
    && forall i :: 0 <= i < |requests| ==> Next(run[i], requests[i], run[i + 1])
  }

  /** Sizes of at most a chunk and alignments dividing it. */
  predicate Modest(r: Request) {
    r.Get? ==> r.align >= 1 && ChunkSize % r.align == 0 && r.size <= ChunkSize
  }

  lemma {:induction false} RunInv(run: seq<Node>, requests: seq<Request>, n: nat)
    requires IsRun(run, requests) && n < |run|
    requires forall i :: 0 <= i < |requests| ==> Modest(requests[i])
    ensures Inv(run[n])
  {
    if n == 0 {
      var limit, clients :| run[0] == Started(limit, clients);
      StartedInv(limit, clients);
    } else {
      RunInv(run, requests, n - 1);
      var s, r := run[n - 1], requests[n - 1];
      assert Next(s, r, run[n]);
      match r
      case Get(who, id, size, align) =>
        assert Modest(r);
        SmallRequests(s, who, size, align);
        AllocExact(s, who, id, size, align);
      case Give(who, id) => ReleaseInv(s, who, id);
    }
  }

  /** In every run, a block that is held lies in chunks handed out, so never in the reserved first chunk. */
  lemma HeldInPool(run: seq<Node>, requests: seq<Request>, n: nat, i: nat)
    requires IsRun(run, requests) && n < |run|
    requires forall i :: 0 <= i < |requests| ==> Modest(requests[i])
    requires i in run[n].live
    ensures run[n].live[i].size > 0 ==>
              ChunkSize <= run[n].live[i].start && run[n].live[i].start + run[n].live[i].size <= run[n].tail * ChunkSize
  {
    RunInv(run, requests, n);
    assert Owns(run[n], Held(i));
  }

  /** In every run, blocks held at the same time share no byte. */
  lemma HeldApart(run: seq<Node>, requests: seq<Request>, n: nat, i: nat, j: nat)
    requires IsRun(run, requests) && n < |run|
    requires forall i :: 0 <= i < |requests| ==> Modest(requests[i])
    requires i in run[n].live && j in run[n].live && i != j
    ensures Apart(run[n].live[i], run[n].live[j])
  {
    RunInv(run, requests, n);
    assert Owns(run[n], Held(i)) && Owns(run[n], Held(j));
  }

  /** A request larger than a chunk is answered all the same, and its block runs into the next chunk. */
  lemma OversizeOverlaps()
    ensures
      var s0 := Started(4, 1);
      var t1 := Alloc(s0, 0, 0, ChunkSize + 1, 1);
      t1.Some? && |t1.value.locals| == 1 &&
      var t2 := Alloc(t1.value, 0, 1, 64, 1);
      t2.Some? && 0 in t2.value.live && 1 in t2.value.live && !Apart(t2.value.live[0], t2.value.live[1])
  {
    var s0 := Started(4, 1);
    var t1 := Alloc(s0, 0, 0, ChunkSize + 1, 1).value;
    var t2 := Alloc(t1, 0, 1, 64, 1);
  }

  /** A block that is given back can be given out again without a new chunk. */
  lemma FreedReusable(s: Node, who: nat, id: nat, limit: nat, align: nat)
    requires who < |s.locals| && id in s.live && align >= 1
    ensures var t := Release(s, who, id);
            && id !in t.live && HasFree(t.locals[who], s.live[id].size)
            && DsmTake(t.locals[who], t.tail, limit, s.live[id].size, align).Some?
            && DsmTake(t.locals[who], t.tail, limit, s.live[id].size, align).value.tail == s.tail
  {
    var t := Release(s, who, id);
    var l := t.locals[who];
    assert l.free[|l.free| - 1] == s.live[id];
    NeedIff(l, s.live[id].size, align);
  }

  // ---- alignment over a run ----

  function TheLocal(cur: nat, free: seq<Block>): (l: Local) {
    Local(ChunkSize, cur, free)
  }

  /** A client that gets 8 and then 100 bytes, gives the 100 back, uses up its chunk, and asks for 100 bytes aligned to 64. */
  function ReuseRequests(): (r: seq<Request>) {
    [Get(0, 0, 8, 8), Get(0, 1, 100, 8), Give(0, 1), Get(0, 2, ChunkSize - 200, 1), Get(0, 3, 100, 64)]
  }

  function ReuseRun(): (run: seq<Node>) {
    var c := ChunkSize;
    var b0, b1, b2 := Block(c, 8), Block(c + 8, 100), Block(c + 108, c - 200);
    [Started(4, 1),
     Node(2, 4, [TheLocal(c + 8, [])], map[0 := b0]),
     Node(2, 4, [TheLocal(c + 108, [])], map[0 := b0, 1 := b1]),
     Node(2, 4, [TheLocal(c + 108, [b1])], map[0 := b0]),
     Node(2, 4, [TheLocal(2 * c - 92, [b1])], map[0 := b0, 2 := b2]),
     Node(2, 4, [TheLocal(2 * c - 64, [])], map[0 := b0, 2 := b2, 3 := Block(c + 8, 100)])]
  }

  /** One allocation of the client, spelled out. */
  lemma GetIs(s: Node, l: Local, id: nat, size: nat, align: nat, t: Node)
    requires s.locals == [l] && align >= 1 && id !in s.live
    requires var g := DsmTake(l, s.tail, s.limit, size, align);
             && g.Some? && t.tail == g.value.tail && t.limit == s.limit && t.locals == [g.value.local]
             && t.live == s.live[id := Block(g.value.addr, size)]
    ensures Next(s, Get(0, id, size, align), t)
  {
    var g := DsmTake(l, s.tail, s.limit, size, align).value;
    assert s.locals[0 := g.local] == [g.local];
  }

  lemma ReuseStep(i: nat)
    requires i < 5
    ensures Next(ReuseRun()[i], ReuseRequests()[i], ReuseRun()[i + 1])
  {
    var c := ChunkSize;
    var b0, b1 := Block(c, 8), Block(c + 8, 100);
    var s, t := ReuseRun()[i], ReuseRun()[i + 1];
    if i == 0 {
      assert s.locals == [Local(0, 0, [])];
      assert DsmTake(Local(0, 0, []), 1, 4, 8, 8) == Some(Given(TheLocal(c + 8, []), 2, c));
      GetIs(s, Local(0, 0, []), 0, 8, 8, t);
    } else if i == 1 {
      assert DsmTake(TheLocal(c + 8, []), 2, 4, 100, 8) == Some(Given(TheLocal(c + 108, []), 2, c + 8));
      GetIs(s, TheLocal(c + 8, []), 1, 100, 8, t);
    } else if i == 2 {
      assert s.live - {1} == map[0 := b0] && [] + [b1] == [b1];
      assert s.locals[0 := TheLocal(c + 108, [b1])] == [TheLocal(c + 108, [b1])];
    } else if i == 3 {
      assert DsmTake(TheLocal(c + 108, [b1]), 2, 4, c - 200, 1) == Some(Given(TheLocal(2 * c - 92, [b1]), 2, c + 108));
      GetIs(s, TheLocal(c + 108, [b1]), 2, c - 200, 1, t);
    } else {
      LastReuse();
      GetIs(s, TheLocal(2 * c - 92, [b1]), 3, 100, 64, t);
    }
  }

  lemma LastReuse()
    ensures var c := ChunkSize;
            DsmTake(TheLocal(2 * c - 92, [Block(c + 8, 100)]), 2, 4, 100, 64) == Some(Given(TheLocal(2 * c - 64, []), 2, c + 8))
  {
    var c := ChunkSize;
    var b1 := Block(c + 8, 100);
    assert RoundUp(2 * c - 92, 64) == 2 * c - 64;
    assert FirstFit([b1], 100) == 0;
    assert [b1][..0] + [b1][1..] == [];
  }

  /** A reachable state in which a block asked for with alignment 64 starts 8 bytes after a multiple of 64. */
  lemma MisalignedReuse()
    ensures IsRun(ReuseRun(), ReuseRequests()) && forall i :: 0 <= i < |ReuseRequests()| ==> Modest(ReuseRequests()[i])
    ensures ReuseRequests()[4] == Get(0, 3, 100, 64) && 3 in ReuseRun()[5].live && ReuseRun()[5].live[3].start % 64 == 8
  {
    var run, requests := ReuseRun(), ReuseRequests();
    forall i | 0 <= i < |requests| ensures Next(run[i], requests[i], run[i + 1]) {
      ReuseStep(i);
    }
    assert run[0] == Started(4, 1);
  }

  // ---- the bump allocator ----

  /** A client has loaded the shared offset and is about to compare-and-swap it. */
  datatype Client = Idle | Loaded(seen: nat, size: nat, align: nat)

  /** A block and the alignment it was asked for with. */
  datatype Grant = Grant(start: nat, size: nat, align: nat)

  datatype Pool = Pool(offset: nat, size: nat, clients: map<nat, Client>, given: seq<Grant>)

  predicate IsAligned(g: Grant) {
    g.align >= 1 && g.start % g.align == 0
  }

  /** Where the first n blocks end. */
  function EndOf(given: seq<Grant>, n: nat): nat
    requires n <= |given|
  {
    if n == 0 then ChunkSize else given[n - 1].start + given[n - 1].size
  }

  /** Block i starts as soon after the one before it as its alignment allows. */
  predicate Near(given: seq<Grant>, i: nat)
    requires i < |given|
  {
    given[i].start < EndOf(given, i) + given[i].align
  }

  /** Blocks are aligned, disjoint and in order, each as near as its alignment allows to the one before it, and the offset is
      where the last one ends. */
  ghost predicate PoolInv(p: Pool) {
    && ChunkSize <= p.offset
    && (forall i :: 0 <= i < |p.given| ==> ChunkSize <= p.given[i].start && p.given[i].start + p.given[i].size <= p.offset)
    && (forall i :: 0 <= i < |p.given| ==> p.given[i].start + p.given[i].size <= p.size)
    && (forall i :: 0 <= i < |p.given| ==> IsAligned(p.given[i]))
    && (forall i, j :: 0 <= i < j < |p.given| ==> p.given[i].start + p.given[i].size <= p.given[j].start)
    && p.offset == EndOf(p.given, |p.given|)
    && (forall i {:trigger Near(p.given, i)} :: 0 <= i < |p.given| ==> Near(p.given, i))
  }

  /** One step of client c: load, give up for want of room, or compare-and-swap (which fails when another
      client moved the offset, and may fail spuriously). */
  ghost predicate PoolStep(p: Pool, c: nat, q: Pool) {
    c in p.clients && q.size == p.size &&
    match p.clients[c]
    case Idle =>
      (exists size, align | align >= 1 ::
         q == p.(clients := p.clients[c := Loaded(p.offset, size, align)]))
    case Loaded(seen, size, align) =>
      (align >= 1 &&
       var start := RoundUp(seen, align);
       if start + size > p.size then q == p.(clients := p.clients[c := Idle])
       else
         || q == p.(clients := p.clients[c := Loaded(p.offset, size, align)])
         || (p.offset == seen &&
             q == p.(offset := start + size, clients := p.clients[c := Idle], given := p.given + [Grant(start, size, align)])))
  }

  ghost predicate PoolRun(run: seq<Pool>, who: seq<nat>) {
    && |run| == |who| + 1
    && run[0].offset == ChunkSize && run[0].given == []
    && forall i :: 0 <= i < |who| ==> PoolStep(run[i], who[i], run[i + 1])
  }

  lemma GrantKeeps(p: Pool, q: Pool, g: Grant)
    requires PoolInv(p) && g.align >= 1 && g.start == RoundUp(p.offset, g.align) && g.start + g.size <= p.size
    requires q.given == p.given + [g] && q.offset == g.start + g.size && q.size == p.size
    ensures PoolInv(q)
  {
    hide PoolInv, IsAligned, RoundUp;
    RoundIsAligned(p.offset, g);
    GrantInOrder(p, q, g);
  }

  lemma RoundIsAligned(x: nat, g: Grant)
    requires g.align >= 1 && g.start == RoundUp(x, g.align)
    ensures IsAligned(g) && x <= g.start < x + g.align
  {}

  lemma GrantInOrder(p: Pool, q: Pool, g: Grant)
    requires PoolInv(p) && IsAligned(g) && p.offset <= g.start < p.offset + g.align && g.start + g.size <= p.size
    requires q.given == p.given + [g] && q.offset == g.start + g.size && q.size == p.size
    ensures PoolInv(q)
  {
    hide IsAligned;
    var n := |p.given|;
    assert q.given[n] == g && forall i :: 0 <= i < n ==> q.given[i] == p.given[i];
    forall i | 0 <= i <= n ensures i < n ==> Near(q.given, i) {
      assert i < n ==> Near(p.given, i);
      assert i > 0 ==> q.given[i - 1] == p.given[i - 1];
    }
    assert Near(q.given, n);
  }

  lemma PoolStepInv(p: Pool, c: nat, q: Pool)
    requires PoolInv(p) && PoolStep(p, c, q)
    ensures PoolInv(q)
  {
    hide PoolInv, RoundUp;
    if q.given == p.given {
      SamePool(p, q);
    } else {
      var x := p.clients[c];
      GrantKeeps(p, q, Grant(RoundUp(x.seen, x.align), x.size, x.align));
    }
  }

  lemma SamePool(p: Pool, q: Pool)
    requires PoolInv(p) && q.given == p.given && q.offset == p.offset && q.size == p.size
    ensures PoolInv(q)
  {}

  /** Over every interleaving, the blocks given out are aligned, disjoint, inside the pool and above the reserved first
      chunk, with nothing wasted between them. */
  lemma {:induction false} PoolRunInv(run: seq<Pool>, who: seq<nat>, n: nat)
    requires PoolRun(run, who) && n < |run|
    ensures PoolInv(run[n])
  {
    hide PoolStep;
    if n > 0 {
      PoolRunInv(run, who, n - 1);
      assert PoolStep(run[n - 1], who[n - 1], run[n - 1 + 1]);
      PoolStepInv(run[n - 1], who[n - 1], run[n]);
    }
  }
}
