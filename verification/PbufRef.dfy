/** Reference counting of pbuf.c, for chains that may share their tails. Pbufs are known by their addresses. */
module PbufRef {
  import opened Words

  const NULL: nat := 0

  /** struct pbuf, as far as references go. */
  datatype Pbuf = Pbuf(next: nat, ref: U8)

  type Memory = map<nat, Pbuf>

  /** Every `next` is NULL or a live pbuf, and no chain bites its own tail. */
  ghost predicate Closed(mem: Memory, rank: map<nat, nat>) {
    && NULL !in mem && mem.Keys <= rank.Keys
    && forall p :: p in mem && mem[p].next != NULL ==> mem[p].next in mem && rank[mem[p].next] < rank[p]
  }

  /** `y` lies on the chain that starts with `x`. */
  ghost predicate Reaches(mem: Memory, rank: map<nat, nat>, x: nat, y: nat)
    requires Closed(mem, rank) && x in mem
    decreases rank[x]
  {
    x == y || (mem[x].next != NULL && Reaches(mem, rank, mem[x].next, y))
  }

  /** The live pbufs whose `next` is `p`. */
  ghost function Pointers(mem: Memory, p: nat): set<nat> {
    set q | q in mem && mem[q].next == p
  }

  /** Every live pbuf counts the handles that callers hold on it and the `next` pointers to it. A further reference to
      `owed`, unless that is NULL, is about to be given back. */
  ghost predicate Counted(mem: Memory, handles: multiset<nat>, owed: nat) {
    && (owed != NULL ==> owed in mem)
    && (forall p :: p in handles ==> p in mem)
    && forall p :: p in mem ==>
         mem[p].ref > 0 && mem[p].ref == handles[p] + |Pointers(mem, p)| + if p == owed then 1 else 0
  }

  ghost predicate Inv(mem: Memory, rank: map<nat, nat>, handles: multiset<nat>, owed: nat) {
    Closed(mem, rank) && Counted(mem, handles, owed)
  }

  // ---------- what the reference counts mean ----------

  ghost predicate Reachable(mem: Memory, rank: map<nat, nat>, handles: multiset<nat>, p: nat)
    requires Closed(mem, rank)
  {
    exists h :: h in handles && h in mem && Reaches(mem, rank, h, p)
  }

  /** With no reference owed, what is live is exactly what can be reached from some handle. */
  lemma LiveIffReachable(mem: Memory, rank: map<nat, nat>, handles: multiset<nat>, p: nat)
    requires Inv(mem, rank, handles, NULL)
    ensures p in mem <==> Reachable(mem, rank, handles, p)
  {
    if p in mem {
      var h := Holder(mem, rank, handles, p);
    }
    forall h | h in handles && h in mem && Reaches(mem, rank, h, p) ensures p in mem {
      ReachesLive(mem, rank, h, p);
    }
  }

  lemma {:induction false} ReachesLive(mem: Memory, rank: map<nat, nat>, x: nat, y: nat)
    requires Closed(mem, rank) && x in mem && Reaches(mem, rank, x, y)
    ensures y in mem && rank[y] <= rank[x]
    decreases rank[x]
  {
    if x != y {
      ReachesLive(mem, rank, mem[x].next, y);
    }
  }

  ghost function Above(mem: Memory, rank: map<nat, nat>, p: nat): set<nat>
    requires Closed(mem, rank) && p in mem
  {
    set q | q in mem && rank[q] > rank[p]
  }

  /** Going against the pointers from a live pbuf leads to a handle. */
  lemma {:induction false} Holder(mem: Memory, rank: map<nat, nat>, handles: multiset<nat>, p: nat) returns (h: nat)
    requires Inv(mem, rank, handles, NULL) && p in mem
    ensures h in handles && h in mem && Reaches(mem, rank, h, p)
    decreases Above(mem, rank, p)
  {
    if p in handles {
      h := p;
    } else {
      assert |Pointers(mem, p)| > 0;
      var q :| q in Pointers(mem, p);
      assert q in Above(mem, rank, p) && q !in Above(mem, rank, q) && Above(mem, rank, q) <= Above(mem, rank, p);
      h := Holder(mem, rank, handles, q);
      ReachesStep(mem, rank, h, q, p);
    }
  }

  lemma {:induction false} ReachesStep(mem: Memory, rank: map<nat, nat>, x: nat, y: nat, z: nat)
    requires Closed(mem, rank) && x in mem && Reaches(mem, rank, x, y) && y in mem && mem[y].next == z != NULL
    ensures Reaches(mem, rank, x, z)
    decreases rank[x]
  {
    if x != y {
      ReachesStep(mem, rank, mem[x].next, y, z);
    }
  }

  // ---------- what changes do to the counts ----------

  lemma SamePointers(mem: Memory, mem': Memory)
    requires mem'.Keys == mem.Keys && forall p :: p in mem ==> mem'[p].next == mem[p].next
    ensures forall q :: Pointers(mem', q) == Pointers(mem, q)
  {
    forall q ensures Pointers(mem', q) == Pointers(mem, q) {
    }
  }

  lemma AllocInv(mem: Memory, rank: map<nat, nat>, handles: multiset<nat>, p: nat)
    requires Inv(mem, rank, handles, NULL) && p !in mem && p != NULL
    ensures Inv(mem[p := Pbuf(NULL, 1)], rank[p := 0], handles + multiset{p}, NULL)
  {
    var mem' := mem[p := Pbuf(NULL, 1)];
    forall q | q in mem' ensures |Pointers(mem', q)| == if q == p then 0 else |Pointers(mem, q)| {
      assert Pointers(mem', q) == if q == p then {} else Pointers(mem, q);
    }
  }

  lemma RefInv(mem: Memory, rank: map<nat, nat>, handles: multiset<nat>, p: nat)
    requires Inv(mem, rank, handles, NULL) && p in mem && mem[p].ref < 0xFF
    ensures Inv(mem[p := mem[p].(ref := mem[p].ref + 1)], rank, handles + multiset{p}, NULL)
  {
    SamePointers(mem, mem[p := mem[p].(ref := mem[p].ref + 1)]);
  }

  /** Giving back the reference owed to `c`. If it was the last one, `c` goes, and what it pointed to is owed the
      reference that `c` held. */
  lemma UnrefInv(mem: Memory, rank: map<nat, nat>, handles: multiset<nat>, c: nat)
    requires Inv(mem, rank, handles, c) && c != NULL
    ensures var left := mem[c].ref - 1;
            if left == 0 then Inv(mem - {c}, rank, handles, mem[c].next)
            else Inv(mem[c := mem[c].(ref := left)], rank, handles, NULL)
  {
    var left := mem[c].ref - 1;
    if left == 0 {
      NotPointedAt(mem, c);
      forall q ensures |Pointers(mem, q)| == |Pointers(mem - {c}, q)| + if mem[c].next == q then 1 else 0 {
        Without(mem, c, q);
      }
      GoneInv(mem, rank, handles, c);
    } else {
      SamePointers(mem, mem[c := mem[c].(ref := left)]);
    }
  }

  lemma GoneInv(mem: Memory, rank: map<nat, nat>, handles: multiset<nat>, c: nat)
    requires Inv(mem, rank, handles, c) && c != NULL && mem[c].ref == 1
    requires forall q :: q in mem ==> mem[q].next != c
    requires forall q :: |Pointers(mem, q)| == |Pointers(mem - {c}, q)| + if mem[c].next == q then 1 else 0
    ensures Inv(mem - {c}, rank, handles, mem[c].next)
  {
    hide Pointers;
    var mem' := mem - {c};
    assert Closed(mem', rank);
    assert c !in handles;
    forall p | p in mem'
      ensures mem'[p].ref > 0 && mem'[p].ref == handles[p] + |Pointers(mem', p)| + if p == mem[c].next then 1 else 0
    {
      assert mem'[p] == mem[p] && |Pointers(mem, p)| == |Pointers(mem', p)| + if mem[c].next == p then 1 else 0;
    }
  }

  lemma NotPointedAt(mem: Memory, c: nat)
    ensures |Pointers(mem, c)| == 0 ==> forall q :: q in mem ==> mem[q].next != c
  {
    forall q | q in mem && mem[q].next == c ensures |Pointers(mem, c)| > 0 {
      assert q in Pointers(mem, c);
    }
  }

  /** Taking away the pointer of one pbuf. */
  lemma Without(mem: Memory, c: nat, q: nat)
    requires c in mem
    ensures |Pointers(mem, q)| == |Pointers(mem - {c}, q)| + if mem[c].next == q then 1 else 0
  {
    assert Pointers(mem, q) == Pointers(mem - {c}, q) + if mem[c].next == q then {c} else {};
  }

  lemma Redirected(mem: Memory, c: nat, n: nat, q: nat)
    requires c in mem
    ensures |Pointers(mem[c := mem[c].(next := n)], q)| + (if mem[c].next == q then 1 else 0)
            == |Pointers(mem, q)| + if n == q then 1 else 0
  {
    var mem' := mem[c := mem[c].(next := n)];
    Without(mem, c, q);
    Without(mem', c, q);
    assert mem - {c} == mem' - {c};
  }

  /** Cutting `p` off from what follows it: that is owed the reference that `p` held. */
  lemma CutInv(mem: Memory, rank: map<nat, nat>, handles: multiset<nat>, p: nat)
    requires Inv(mem, rank, handles, NULL) && p in mem
    ensures Inv(mem[p := mem[p].(next := NULL)], rank, handles, mem[p].next)
  {
    hide Pointers;
    forall q | q in mem ensures |Pointers(mem[p := mem[p].(next := NULL)], q)| + (if mem[p].next == q then 1 else 0)
                                == |Pointers(mem, q)|
    {
      Redirected(mem, p, NULL, q);
    }
  }

  /** The last pbuf of the chain that starts with `h`. */
  ghost function Last(mem: Memory, rank: map<nat, nat>, h: nat): (p: nat)
    requires Closed(mem, rank) && h in mem
    ensures p in mem && mem[p].next == NULL && Reaches(mem, rank, h, p)
    decreases rank[h]
  {
    if mem[h].next == NULL then h else Last(mem, rank, mem[h].next)
  }

  /** Everything that reaches `p` ranks above the chain that is linked behind `p`. */
  ghost function Raised(mem: Memory, rank: map<nat, nat>, p: nat, t: nat): map<nat, nat>
    requires Closed(mem, rank) && t in mem
  {
    map q | q in mem :: rank[q] + if Reaches(mem, rank, q, p) then rank[t] + 1 else 0
  }

  lemma LinkInv(mem: Memory, rank: map<nat, nat>, handles: multiset<nat>, p: nat, t: nat)
    requires Inv(mem, rank, handles, NULL) && p in mem && mem[p].next == NULL && t in handles
    requires t in mem && !Reaches(mem, rank, t, p)
    ensures Inv(mem[p := mem[p].(next := t)], Raised(mem, rank, p, t), handles - multiset{t}, NULL)
  {
    LinkClosed(mem, rank, p, t);
    forall q | q in mem
      ensures |Pointers(mem[p := mem[p].(next := t)], q)| == |Pointers(mem, q)| + if t == q then 1 else 0
    {
      Redirected(mem, p, t, q);
    }
    LinkCounted(mem, mem[p := mem[p].(next := t)], handles, p, t);
  }

  lemma LinkCounted(mem: Memory, mem': Memory, handles: multiset<nat>, p: nat, t: nat)
    requires Counted(mem, handles, NULL) && NULL !in mem && p in mem && t in handles
    requires mem' == mem[p := mem[p].(next := t)]
    requires forall q :: q in mem ==> |Pointers(mem', q)| == |Pointers(mem, q)| + if t == q then 1 else 0
    ensures Counted(mem', handles - multiset{t}, NULL)
  {
    hide Pointers;
    var handles' := handles - multiset{t};
    forall q | q in mem'
      ensures mem'[q].ref > 0 && mem'[q].ref == handles'[q] + |Pointers(mem', q)|
    {
      assert mem'[q].ref == mem[q].ref == handles[q] + |Pointers(mem, q)|;
    }
  }

  lemma LinkClosed(mem: Memory, rank: map<nat, nat>, p: nat, t: nat)
    requires Closed(mem, rank) && p in mem && mem[p].next == NULL && t in mem && !Reaches(mem, rank, t, p)
    ensures Closed(mem[p := mem[p].(next := t)], Raised(mem, rank, p, t))
  {
  }

  /** How many pbufs from `x` on have a single reference: the length of the run that goes when that reference does. */
  ghost function Run(mem: Memory, rank: map<nat, nat>, x: nat): nat
    requires Closed(mem, rank) && (x != NULL ==> x in mem)
    decreases if x == NULL then 0 else 1 + rank[x]
  {
    if x == NULL || mem[x].ref != 1 then 0 else 1 + Run(mem, rank, mem[x].next)
  }

  lemma {:induction false} RunSame(mem: Memory, mem': Memory, rank: map<nat, nat>, x: nat)
    requires Closed(mem, rank) && Closed(mem', rank) && (x != NULL ==> x in mem)
    requires x != NULL ==> forall y :: y in mem && rank[y] <= rank[x] ==> y in mem' && mem'[y] == mem[y]
    ensures x != NULL ==> x in mem'
    ensures Run(mem', rank, x) == Run(mem, rank, x)
    decreases if x == NULL then 0 else 1 + rank[x]
  {
    if x != NULL && mem[x].ref == 1 {
      RunSame(mem, mem', rank, mem[x].next);
    }
  }

  /** Taking the head off a run. */
  lemma RunStep(mem: Memory, rank: map<nat, nat>, handles: multiset<nat>, c: nat)
    requires Inv(mem, rank, handles, c) && c != NULL
    ensures Closed(mem, rank) && c in mem
    ensures if mem[c].ref == 1 then
              && Closed(mem - {c}, rank) && (mem[c].next != NULL ==> mem[c].next in mem - {c})
              && Run(mem, rank, c) == 1 + Run(mem - {c}, rank, mem[c].next)
              && (mem[c].next == NULL ==> Run(mem, rank, c) == 1)
            else Run(mem, rank, c) == 0
  {
    if mem[c].ref == 1 {
      UnrefInv(mem, rank, handles, c);
      RunSame(mem, mem - {c}, rank, mem[c].next);
    }
  }

  lemma RunCut(mem: Memory, rank: map<nat, nat>, p: nat)
    requires Closed(mem, rank) && p in mem
    ensures Closed(mem[p := mem[p].(next := NULL)], rank)
    ensures Run(mem[p := mem[p].(next := NULL)], rank, mem[p].next) == Run(mem, rank, mem[p].next)
  {
    RunSame(mem, mem[p := mem[p].(next := NULL)], rank, mem[p].next);
  }

  lemma Self(mem: Memory, rank: map<nat, nat>, x: nat)
    requires Closed(mem, rank) && x in mem
    ensures Reaches(mem, rank, x, x)
  {
  }

  // ---------- the loop of pbuf_free ----------

  /** Where the loop stands: `gone` are deallocated, and the reference to `p` is to be given back next. */
  ghost predicate Dropping(mem0: Memory, mem: Memory, rank: map<nat, nat>, handles: multiset<nat>, start: nat, p: nat,
                           gone: set<nat>, count: U8) {
    && Inv(mem, rank, handles, p) && Closed(mem0, rank) && start in mem0 && start in rank
    && mem.Keys == mem0.Keys - gone && gone <= mem0.Keys && count == |gone| % 0x100
    && (forall q :: q in mem ==> mem[q].next == mem0[q].next)
    && (forall q :: q in gone ==> q in rank && rank[q] <= rank[start])
    && (p != NULL ==> p in mem && rank[p] <= rank[start])
    && |gone| + (if p == NULL then 0 else Run(mem, rank, p)) == Run(mem0, rank, start)
    && if gone == {} then start in mem && (p == NULL || p == start) else start in gone
  }

  lemma DropStart(mem: Memory, rank: map<nat, nat>, handles: multiset<nat>, start: nat)
    requires Inv(mem, rank, handles, start) && start != NULL
    ensures Dropping(mem, mem, rank, handles, start, start, {}, 0) && start in mem && mem[start].ref > 0
  {
    hide Counted;
    OwedLives(mem, rank, handles, start);
  }

  lemma DropStep(mem0: Memory, mem: Memory, rank: map<nat, nat>, handles: multiset<nat>, start: nat, p: nat,
                 gone: set<nat>, count: U8)
    requires Dropping(mem0, mem, rank, handles, start, p, gone, count) && p != NULL
    ensures p in mem && mem[p].ref > 0
    ensures if mem[p].ref == 1 then
              var (m, q) := (mem - {p}, mem[p].next);
              && Dropping(mem0, m, rank, handles, start, q, gone + {p}, (count + 1) % 0x100)
              && (q != NULL ==> q in m && m[q].ref > 0)
            else Dropping(mem0, mem[p := mem[p].(ref := mem[p].ref - 1)], rank, handles, start, NULL, gone, count)
  {
    hide Inv, Closed, Run;
    OwedLives(mem, rank, handles, p);
    UnrefInv(mem, rank, handles, p);
    RunStep(mem, rank, handles, p);
    if mem[p].ref == 1 {
      if mem[p].next != NULL {
        OwedLives(mem - {p}, rank, handles, mem[p].next);
      }
    }
  }

  lemma DropDone(mem0: Memory, mem: Memory, rank: map<nat, nat>, handles: multiset<nat>, start: nat, gone: set<nat>,
                 count: U8)
    requires Dropping(mem0, mem, rank, handles, start, NULL, gone, count)
    ensures Inv(mem, rank, handles, NULL) && mem.Keys == mem0.Keys - gone && gone <= mem0.Keys
            && count == |gone| % 0x100
    ensures forall q :: q in mem ==> mem[q].next == mem0[q].next
    ensures start in mem <==> gone == {}
    ensures start in rank && forall q :: q in gone ==> q in rank && rank[q] <= rank[start]
    ensures Closed(mem0, rank) && start in mem0 && |gone| == Run(mem0, rank, start)
  {
  }

  // ---------- the functions of pbuf.c ----------

  /** The pbufs of the program, and the references that callers hold. */
  class Pool {
    var mem: Memory
    ghost var handles: multiset<nat>
    ghost var rank: map<nat, nat>

    ghost predicate Valid()
      reads this
    {
      Inv(mem, rank, handles, NULL)
    }

    constructor ()
      ensures Valid() && mem == map[] && handles == multiset{}
    {
      mem, handles, rank := map[], multiset{}, map[];
    }

    /** pbuf_alloc and its kin, for one pbuf; `p` is the address that the allocator gives. */
    method Alloc(p: nat)
      requires Valid() && p !in mem && p != NULL
      modifies this
      ensures Valid() && mem == old(mem)[p := Pbuf(NULL, 1)] && handles == old(handles) + multiset{p}
    {
      AllocInv(mem, rank, handles, p);
      mem := mem[p := Pbuf(NULL, 1)];
      handles, rank := handles + multiset{p}, rank[p := 0];
    }

    /** pbuf_ref. The assertion in the code demands that the counter does not wrap. */
    method Ref(p: nat)
      requires Valid() && p in mem && mem[p].ref < 0xFF
      modifies `mem, `handles
      ensures Valid() && mem == old(mem)[p := old(mem)[p].(ref := old(mem)[p].ref + 1)]
      ensures handles == old(handles) + multiset{p}
    {
      RefInv(mem, rank, handles, p);
      mem := mem[p := mem[p].(ref := mem[p].ref + 1)];
      handles := handles + multiset{p};
    }

    /** The loop of pbuf_free. `count` is what the code returns, a u8_t; `gone` are the pbufs deallocated. */
    method Drop(start: nat) returns (count: U8, ghost gone: set<nat>)
      requires Inv(mem, rank, handles, start) && start != NULL
      modifies `mem
      ensures Valid() && mem.Keys == old(mem).Keys - gone && gone <= old(mem).Keys && count == |gone| % 0x100
      ensures forall q :: q in mem ==> mem[q].next == old(mem)[q].next
      ensures start in mem <==> gone == {}
      ensures start in rank && forall q :: q in gone ==> q in rank && rank[q] <= rank[start]
      ensures Closed(old(mem), rank) && start in old(mem) && |gone| == Run(old(mem), rank, start)
    {
      hide Inv, Closed, Run, Dropping;
      ghost var mem0 := mem;
      DropStart(mem, rank, handles, start);
      var p := start;
      gone, count := {}, 0;
      while p != NULL
        invariant Dropping(mem0, mem, rank, handles, start, p, gone, count)
        invariant p != NULL ==> p in mem && mem[p].ref > 0
        decreases if p == NULL then 0 else 1, mem.Keys
      {
        var ref := mem[p].ref - 1;
        DropStep(mem0, mem, rank, handles, start, p, gone, count);
        if ref == 0 {
          var q := mem[p].next;
          mem := mem - {p};
          gone := gone + {p};
          count := (count + 1) % 0x100;
          p := q;
        } else {
          mem := mem[p := mem[p].(ref := ref)];
          p := NULL;
        }
      }
      DropDone(mem0, mem, rank, handles, start, gone, count);
    }

    /** pbuf_free: the caller gives up its reference. What is deallocated is what no handle reaches any more. */
    method Free(p: nat) returns (count: U8, ghost gone: set<nat>)
      requires Valid() && p in handles
      modifies `mem, `handles
      ensures Valid() && handles == old(handles) - multiset{p}
      ensures mem.Keys == old(mem).Keys - gone && gone <= old(mem).Keys && count == |gone| % 0x100
      ensures forall q :: q in mem ==> mem[q].next == old(mem)[q].next
      ensures Closed(mem, rank) && forall q :: q in old(mem) ==> (q in gone <==> !Reachable(mem, rank, handles, q))
    {
      handles := handles - multiset{p};
      count, gone := Drop(p);
      forall q | q in old(mem) ensures q in gone <==> !Reachable(mem, rank, handles, q) {
        LiveIffReachable(mem, rank, handles, q);
      }
    }

    /** pbuf_cat: the last pbuf of `h` takes over the caller's reference to `t`. The chain of `t` must not run into
        that of `h`. */
    method Cat(h: nat, t: nat)
      requires Valid() && h in mem && t in handles && t in mem
      requires !Reaches(mem, rank, t, Last(mem, rank, h))
      modifies `mem, `handles, `rank
      ensures Valid() && handles == old(handles) - multiset{t}
      ensures var l := old(Last(mem, rank, h)); mem == old(mem)[l := old(mem)[l].(next := t)]
    {
      var p := h;
      while mem[p].next != NULL
        invariant p in mem && Last(mem, rank, p) == Last(mem, rank, h)
        decreases rank[p]
      {
        p := mem[p].next;
      }
      LinkInv(mem, rank, handles, p, t);
      rank := Raised(mem, rank, p, t);
      mem := mem[p := mem[p].(next := t)];
      handles := handles - multiset{t};
    }

    /** pbuf_chain: the caller keeps its reference to `t`. */
    method Chain(h: nat, t: nat)
      requires Valid() && h in mem && t in handles && t in mem && mem[t].ref < 0xFF
      requires !Reaches(mem, rank, t, Last(mem, rank, h))
      modifies `mem, `handles, `rank
      ensures Valid() && handles == old(handles)
      ensures var l := old(Last(mem, rank, h));
              mem == old(mem)[l := old(mem)[l].(next := t)][t := old(mem)[t].(ref := old(mem)[t].ref + 1)]
    {
      hide Counted, Closed, Reaches, Last;
      Self(mem, rank, t);
      Cat(h, t);
      Ref(t);
      assert handles == old(handles);
    }

    /** pbuf_dechain: what comes behind `p` loses the reference that `p` held, and the run of pbufs there that have no
        other one goes. The result is to tell whether the tail is gone; as the code counts in a u8_t, it errs if and
        only if the length of that run is a positive multiple of 256. */
    method Dechain(p: nat) returns (q: nat, ghost gone: set<nat>)
      requires Valid() && p in mem
      modifies `mem
      ensures Valid() && p in mem && mem[p].next == NULL
      ensures mem.Keys == old(mem).Keys - gone && gone <= old(mem).Keys
      ensures forall x :: x in mem && x != p ==> mem[x].next == old(mem)[x].next
      ensures var tail := old(mem)[p].next;
              && Closed(old(mem), rank) && (tail != NULL ==> tail in old(mem)) && |gone| == Run(old(mem), rank, tail)
              && (tail != NULL ==> (tail in mem <==> Run(old(mem), rank, tail) == 0))
              && q == if Run(old(mem), rank, tail) % 0x100 == 0 then tail else NULL
    {
      hide Run, Counted;
      q, gone := mem[p].next, {};
      var tail_gone: U8 := 1;
      RunCut(mem, rank, p);
      if q != NULL {
        CutInv(mem, rank, handles, p);
        mem := mem[p := mem[p].(next := NULL)];
        assert rank[q] < rank[p];
        tail_gone, gone := Drop(q);
      } else {
        RunNull(mem, rank);
      }
      if tail_gone > 0 {
        q := NULL;
      }
    }
  }

  lemma RunNull(mem: Memory, rank: map<nat, nat>)
    requires Closed(mem, rank)
    ensures Run(mem, rank, NULL) == 0
  {
  }

  // ---------- a tail that pbuf_dechain takes for alive ----------

  predicate Address(i: nat, n: nat) {
    1 <= i <= n
  }

  /** A chain of `n` pbufs at the addresses 1 to `n`, each with one reference; a caller holds the first one. */
  ghost function Row(n: nat): Memory {
    map i: nat | 1 <= i <= n && Address(i, n) :: Pbuf(if i == n then NULL else i + 1, 1)
  }

  ghost function RowRank(n: nat): map<nat, nat> {
    map i: nat | 1 <= i <= n && Address(i, n) :: n - i
  }

  lemma {:induction false} RowInv(n: nat)
    requires n > 0
    ensures Inv(Row(n), RowRank(n), multiset{1}, NULL)
  {
    forall p | p in Row(n) ensures |Pointers(Row(n), p)| == if p == 1 then 0 else 1 {
      assert Pointers(Row(n), p) == if p == 1 then {} else {p - 1};
    }
  }

  lemma RowAt(n: nat, i: nat)
    requires 1 <= i <= n
    ensures i in Row(n) && Row(n)[i] == Pbuf(if i == n then NULL else i + 1, 1)
  {
    assert Address(i, n);
  }

  lemma {:induction false} RowRun(n: nat, i: nat)
    requires 1 <= i <= n && Closed(Row(n), RowRank(n))
    ensures i in Row(n) && Run(Row(n), RowRank(n), i) == n + 1 - i
    decreases n - i
  {
    hide Row, RowRank, Closed;
    RowAt(n, i);
    if i < n {
      RowRun(n, i + 1);
    }
  }

  /** In a state that satisfies the invariant the tail of a chain of 257 pbufs goes, and the code returns it. */
  lemma {:induction false} WrongOn257()
    ensures Inv(Row(257), RowRank(257), multiset{1}, NULL) && Row(257)[1].next == 2
    ensures Run(Row(257), RowRank(257), 2) == 256
  {
    RowInv(257);
    RowRun(257, 2);
  }

  lemma OwedLives(mem: Memory, rank: map<nat, nat>, handles: multiset<nat>, p: nat)
    requires Inv(mem, rank, handles, p) && p != NULL
    ensures p in mem && mem[p].ref > 0 && p in rank
    ensures mem[p].next != NULL ==> mem[p].next in rank && rank[mem[p].next] < rank[p]
  {
  }
}
