/**
 The lock-free free list of concurrentqueue.h as a state machine: any number of threads run add
 and try_get, one atomic access per step, in any interleaving (every atomic sequentially
 consistent).  The fields `list` and `place` are auxiliary: steps write them and never read them.
 */
module FreeList {
  import opened Sets

  type Node = nat
  type Thread = nat

  datatype Link = Null | To(node: Node)

  const SHOULD_BE_ON_FREELIST := 0x8000_0000
  const REFS_MASK := 0x7FFF_FFFF
  const WORD := 0x1_0000_0000

  /** Where a thread is; add_knowing_refcount_is_zero is Publish..., and `back` is the head with
      which an interrupted try_get goes on afterwards (`Return` when it was called by add). */
  datatype Back = Return | Retry(head: Link)

  datatype Pc =
    | Idle
    | AddFetchAdd(node: Node)
    | PublishLoadHead(node: Node, back: Back)
    | PublishSetNext(node: Node, seen: Link, back: Back)
    | PublishSetRefs(node: Node, seen: Link, back: Back)
    | PublishCas(node: Node, seen: Link, back: Back)
    | PublishGiveUp(node: Node, seen: Link, back: Back)
    | GetLoadHead
    | GetLoadRefs(node: Node)
    | GetIncrement(node: Node, refs: nat)
    | GetLoadNext(node: Node)
    | GetCas(node: Node, next: Link)
    | GetTake(node: Node)
    | GetDrop(node: Node, seen: Link)

  /** Auxiliary: who is responsible for a node. */
  datatype Place =
    | Client                        // handed out (or never added)
    | Entering(t: Thread)           // add called, not yet announced
    | Announced                     // should-be-on-freelist bit set, left to a reference holder
    | Building(t: Thread)           // being prepared for the list by one thread
    | Publishing(t: Thread)         // prepared, not yet linked
    | Linked                        // on the list
    | Taken(t: Thread)              // unlinked by one thread, not yet handed out

  datatype State = State(
    head: Link, next: map<Node, Link>, refs: map<Node, nat>, pc: map<Thread, Pc>,
    list: seq<Node>, place: map<Node, Place>)

  function Next(s: State, x: Node): Link { if x in s.next then s.next[x] else Null }
  function Refs(s: State, x: Node): nat { if x in s.refs then s.refs[x] else 0 }
  function PlaceOf(s: State, x: Node): Place { if x in s.place then s.place[x] else Client }

  ghost predicate Init(s: State) {
    && s.head == Null && s.next == map[] && s.refs == map[]
    && (forall t :: t in s.pc ==> s.pc[t] == Idle)
    && |s.pc| < REFS_MASK - 1
    && s.list == [] && s.place == map[]
  }

  // ---------------------------------------------------------------- steps

  /** The loop test of try_get: return at a null head, otherwise look at that node. */
  function Loop(head: Link): Pc {
    if head == Null then Idle else GetLoadRefs(head.node)
  }

  function Resume(back: Back): Pc {
    match back
    case Return => Idle
    case Retry(head) => Loop(head)
  }

  function Goto(s: State, t: Thread, p: Pc): State { s.(pc := s.pc[t := p]) }

  function SetPlace(s: State, x: Node, p: Place): State { s.(place := s.place[x := p]) }

  function SetRefs(s: State, x: Node, v: int): State
    requires v >= -WORD
  {
    s.(refs := s.refs[x := (v + WORD) % WORD])
  }

  /** A client calls add on a node it holds, or try_get. */
  ghost predicate StartAdd(s: State, s': State, t: Thread, x: Node) {
    t in s.pc && s.pc[t] == Idle && PlaceOf(s, x) == Client
    && s' == SetPlace(Goto(s, t, AddFetchAdd(x)), x, Entering(t))
  }

  ghost predicate StartGet(s: State, s': State, t: Thread) {
    t in s.pc && s.pc[t] == Idle && s' == Goto(s, t, GetLoadHead)
  }

  /** The next atomic access of a thread that is inside add or try_get. */
  function Advance(s: State, t: Thread): State
    requires t in s.pc
  {
    match s.pc[t]
    case Idle => s
    case AddFetchAdd(x) => StepAdd(s, t, x)
    case PublishLoadHead(x, back) => Goto(s, t, PublishSetNext(x, s.head, back))
    case PublishSetNext(x, seen, back) =>
      Goto(s, t, PublishSetRefs(x, seen, back)).(next := s.next[x := seen])
    case PublishSetRefs(x, seen, back) =>
      SetPlace(SetRefs(Goto(s, t, PublishCas(x, seen, back)), x, 1), x, Publishing(t))
    case PublishCas(x, seen, back) => StepPublishCas(s, t, x, seen, back)
    case PublishGiveUp(x, seen, back) => StepGiveUp(s, t, x, seen, back)
    case GetLoadHead => Goto(s, t, Loop(s.head))
    case GetLoadRefs(x) =>
      Goto(s, t, if Refs(s, x) % (REFS_MASK + 1) == 0 then GetLoadHead else GetIncrement(x, Refs(s, x)))
    case GetIncrement(x, refs) =>
      if Refs(s, x) == refs then SetRefs(Goto(s, t, GetLoadNext(x)), x, refs + 1) else Goto(s, t, GetLoadHead)
    case GetLoadNext(x) => Goto(s, t, GetCas(x, Next(s, x)))
    case GetCas(x, next) => StepGetCas(s, t, x, next)
    case GetTake(x) => SetPlace(SetRefs(Goto(s, t, Idle), x, Refs(s, x) - 2), x, Client)
    case GetDrop(x, seen) => StepDrop(s, t, x, seen)
  }

  function StepAdd(s: State, t: Thread, x: Node): State {
    var s1 := SetRefs(s, x, Refs(s, x) + SHOULD_BE_ON_FREELIST);
    if Refs(s, x) == 0 then SetPlace(Goto(s1, t, PublishLoadHead(x, Return)), x, Building(t))
    else SetPlace(Goto(s1, t, Idle), x, Announced)
  }

  function StepPublishCas(s: State, t: Thread, x: Node, seen: Link, back: Back): State {
    if s.head == seen then
      SetPlace(Goto(s, t, Resume(back)), x, Linked).(head := To(x), list := [x] + s.list)
    else Goto(s, t, PublishGiveUp(x, s.head, back))
  }

  function StepGiveUp(s: State, t: Thread, x: Node, seen: Link, back: Back): State {
    var s1 := SetRefs(s, x, Refs(s, x) + SHOULD_BE_ON_FREELIST - 1);
    if Refs(s, x) == 1 then SetPlace(Goto(s1, t, PublishSetNext(x, seen, back)), x, Building(t))
    else SetPlace(Goto(s1, t, Resume(back)), x, Announced)
  }

  function StepGetCas(s: State, t: Thread, x: Node, next: Link): State {
    if s.head == To(x) then
      SetPlace(Goto(s, t, GetTake(x)), x, Taken(t)).(head := next, list := if s.list == [] then [] else s.list[1..])
    else Goto(s, t, GetDrop(x, s.head))
  }

  function StepDrop(s: State, t: Thread, x: Node, seen: Link): State {
    var s1 := SetRefs(s, x, Refs(s, x) - 1);
    if Refs(s, x) == SHOULD_BE_ON_FREELIST + 1 then
      SetPlace(Goto(s1, t, PublishLoadHead(x, Retry(seen))), x, Building(t))
    else Goto(s1, t, Loop(seen))
  }

  ghost predicate Step(s: State, s': State) {
    exists t ::
      t in s.pc && (StartGet(s, s', t) || (exists x :: StartAdd(s, s', t, x)) || s' == Advance(s, t))
  }

  ghost predicate Run(r: seq<State>) {
    |r| > 0 && Init(r[0]) && forall i :: 0 <= i < |r| - 1 ==> Step(r[i], r[i + 1])
  }

  // ---------------------------------------------------------------- the invariant

  /** A try_get holds a reference to x between its increment and its decrement. */
  predicate Holds(p: Pc, x: Node) {
    (p.GetLoadNext? || p.GetCas? || p.GetTake? || p.GetDrop?) && p.node == x
  }

  ghost function Holders(s: State, x: Node): set<Thread> {
    set t | t in s.pc && Holds(s.pc[t], x)
  }

  /** The reference-count word of every node: the low 31 bits are the list's (or publisher's, or
      taker's) reference plus the holders; the top bit is set exactly while a node waits to be added. */
  ghost predicate RefsOk(s: State, x: Node) {
    var v, h := Refs(s, x), |Holders(s, x)|;
    match PlaceOf(s, x)
    case Client => v == h
    case Entering(_) => v == h
    case Announced => v == SHOULD_BE_ON_FREELIST + h && h > 0
    case Building(_) => v == SHOULD_BE_ON_FREELIST && h == 0
    case Publishing(_) => v == 1 + h
    case Linked => v == 1 + h
    case Taken(_) => v == 1 + h
  }

  /** The responsible thread is at work on the node. */
  ghost predicate Attended(s: State, x: Node) {
    match PlaceOf(s, x)
    case Entering(t) => t in s.pc && s.pc[t] == AddFetchAdd(x)
    case Building(t) =>
      t in s.pc && (s.pc[t].PublishLoadHead? || s.pc[t].PublishSetNext? || s.pc[t].PublishSetRefs?) && s.pc[t].node == x
    case Publishing(t) => t in s.pc && (s.pc[t].PublishCas? || s.pc[t].PublishGiveUp?) && s.pc[t].node == x
    case Taken(t) => t in s.pc && s.pc[t] == GetTake(x)
    case _ => true
  }

  ghost predicate ThreadOk(s: State, t: Thread)
    requires t in s.pc
  {
    match s.pc[t]
    case AddFetchAdd(x) => PlaceOf(s, x) == Entering(t)
    case PublishLoadHead(x, _) => PlaceOf(s, x) == Building(t)
    case PublishSetNext(x, _, _) => PlaceOf(s, x) == Building(t)
    case PublishSetRefs(x, seen, _) => PlaceOf(s, x) == Building(t) && Next(s, x) == seen
    case PublishCas(x, seen, _) => PlaceOf(s, x) == Publishing(t) && Next(s, x) == seen
    case PublishGiveUp(x, _, _) => PlaceOf(s, x) == Publishing(t)
    case GetIncrement(_, refs) => refs % (REFS_MASK + 1) != 0
    case GetCas(x, next) => Next(s, x) == next
    case GetTake(x) => PlaceOf(s, x) == Taken(t)
    case _ => true
  }

  /** Following the links from `from` visits exactly the nodes of l. */
  ghost predicate Chain(s: State, from: Link, l: seq<Node>)
    decreases |l|
  {
    if l == [] then from == Null
    else from == To(l[0]) && Chain(s, Next(s, l[0]), l[1..])
  }

  ghost predicate ListOk(s: State) {
    && Chain(s, s.head, s.list)
    && (forall i, j :: 0 <= i < j < |s.list| ==> s.list[i] != s.list[j])
    && (forall x :: x in s.list <==> PlaceOf(s, x) == Linked)
  }

  ghost predicate Inv(s: State) {
    && |s.pc| < REFS_MASK - 1
    && (forall t :: t in s.pc ==> ThreadOk(s, t))
    && (forall x :: RefsOk(s, x) && Attended(s, x))
    && ListOk(s)
  }

  // ---------------------------------------------------------------- helper lemmas

  /** Only thread t moves, and only node x is touched. */
  ghost predicate Local(s: State, s': State, t: Thread, x: Node) {
    && t in s.pc && t in s'.pc && s'.pc == s.pc[t := s'.pc[t]]
    && (forall y :: y != x ==>
          PlaceOf(s', y) == PlaceOf(s, y) && Refs(s', y) == Refs(s, y) && Next(s', y) == Next(s, y))
    && (s.pc[t].Idle? || s.pc[t].GetLoadHead? || s.pc[t].node == x)
    && (forall y :: y != x ==> !Holds(s'.pc[t], y))
  }

  predicate OwnedByOther(p: Place, t: Thread) {
    (p.Entering? || p.Building? || p.Publishing? || p.Taken?) && p.t != t
  }

  /** A local step keeps the invariant when it does so at its own node, thread and list, changes the
      place only of a node no other thread is responsible for, and the link only while building. */
  lemma LocalStep(s: State, s': State, t: Thread, x: Node)
    requires Inv(s) && Local(s, s', t, x)
    requires RefsOk(s', x) && Attended(s', x) && ThreadOk(s', t) && ListOk(s')
    requires PlaceOf(s', x) == PlaceOf(s, x) || !OwnedByOther(PlaceOf(s, x), t)
    requires Next(s', x) == Next(s, x) || PlaceOf(s, x) == Building(t)
    ensures Inv(s')
  {
    hide ListOk, Holders;
    assert s'.pc.Keys == s.pc.Keys;
    assert |s'.pc| == |s'.pc.Keys| == |s.pc.Keys| == |s.pc|;
    forall u | u in s'.pc ensures ThreadOk(s', u) {
      if u != t {
        OtherThread(s, s', t, x, u);
      }
    }
    forall y ensures RefsOk(s', y) && Attended(s', y) {
      if y != x {
        assert RefsOk(s, y) && Attended(s, y);
        HoldersAfter(s, s', t, y);
      }
    }
  }

  lemma OtherThread(s: State, s': State, t: Thread, x: Node, u: Thread)
    requires Inv(s) && Local(s, s', t, x) && u in s'.pc && u != t
    requires PlaceOf(s', x) == PlaceOf(s, x) || !OwnedByOther(PlaceOf(s, x), t)
    requires Next(s', x) == Next(s, x) || PlaceOf(s, x) == Building(t)
    ensures ThreadOk(s', u)
  {
    hide ListOk;
    assert s'.pc[u] == s.pc[u] && ThreadOk(s, u);
    assert RefsOk(s, x) && (Holds(s.pc[u], x) ==> u in Holders(s, x));
  }

  lemma HoldersAfter(s: State, s': State, t: Thread, x: Node)
    requires t in s.pc && t in s'.pc && s'.pc == s.pc[t := s'.pc[t]]
    ensures |Holders(s', x)| == |Holders(s, x)| - (if Holds(s.pc[t], x) then 1 else 0)
                                              + (if Holds(s'.pc[t], x) then 1 else 0)
    ensures Holds(s.pc[t], x) ==> t in Holders(s, x)
  {
    var h := Holders(s, x) - {t};
    assert Holders(s, x) == if Holds(s.pc[t], x) then h + {t} else h;
    assert Holders(s', x) == if Holds(s'.pc[t], x) then h + {t} else h;
  }

  lemma HoldersBound(s: State, x: Node)
    ensures |Holders(s, x)| <= |s.pc|
  {
    SubsetSize(Holders(s, x), s.pc.Keys);
    assert |s.pc.Keys| == |s.pc|;
  }

  /** Links of other nodes do not matter to a chain. */
  lemma {:induction false} ChainFrame(s: State, s': State, from: Link, l: seq<Node>)
    requires Chain(s, from, l) && forall x :: x in l ==> Next(s', x) == Next(s, x)
    ensures Chain(s', from, l)
    decreases |l|
  {
    if l != [] {
      ChainFrame(s, s', Next(s, l[0]), l[1..]);
    }
  }

  /** A step that leaves the head, the auxiliary list and the linked nodes alone leaves the list alone. */
  lemma ListFrame(s: State, s': State, t: Thread, x: Node)
    requires Inv(s) && Local(s, s', t, x) && s'.head == s.head && s'.list == s.list
    requires PlaceOf(s', x) == PlaceOf(s, x) || (PlaceOf(s, x) != Linked && PlaceOf(s', x) != Linked)
    requires Next(s', x) == Next(s, x) || PlaceOf(s, x) != Linked
    ensures ListOk(s')
  {
    ChainFrame(s, s', s.head, s.list);
  }

  // ---------------------------------------------------------------- every step keeps the invariant

  lemma StartsKeep(s: State, s': State, t: Thread, x: Node)
    requires Inv(s) && (StartAdd(s, s', t, x) || StartGet(s, s', t))
    ensures Inv(s')
  {
    hide ListOk, Holders;
    assert RefsOk(s, x) && Attended(s, x);
    HoldersAfter(s, s', t, x);
    ListFrame(s, s', t, x);
    LocalStep(s, s', t, x);
  }

  lemma AddKeeps(s: State, t: Thread)
    requires Inv(s) && t in s.pc && s.pc[t].AddFetchAdd?
    ensures Inv(Advance(s, t))
  {
    hide ListOk, Holders;
    var x, s' := s.pc[t].node, Advance(s, t);
    assert ThreadOk(s, t) && RefsOk(s, x);
    HoldersBound(s, x);
    HoldersAfter(s, s', t, x);
    ListFrame(s, s', t, x);
    LocalStep(s, s', t, x);
  }

  lemma BuildKeeps(s: State, t: Thread)
    requires Inv(s) && t in s.pc
    requires s.pc[t].PublishLoadHead? || s.pc[t].PublishSetNext? || s.pc[t].PublishSetRefs?
    ensures Inv(Advance(s, t))
  {
    hide ListOk, Holders;
    var x, s' := s.pc[t].node, Advance(s, t);
    assert ThreadOk(s, t) && RefsOk(s, x);
    HoldersAfter(s, s', t, x);
    ListFrame(s, s', t, x);
    LocalStep(s, s', t, x);
  }

  /** Linking a node at the front. */
  lemma LinkKeepsList(s: State, s': State, t: Thread, x: Node)
    requires Inv(s) && Local(s, s', t, x) && PlaceOf(s, x) != Linked && Next(s', x) == Next(s, x) == s.head
    requires s'.head == To(x) && s'.list == [x] + s.list && PlaceOf(s', x) == Linked
    ensures ListOk(s')
  {
    assert x !in s.list;
    ChainFrame(s, s', s.head, s.list);
    assert s'.list[1..] == s.list;
    forall y ensures y in s'.list <==> PlaceOf(s', y) == Linked {
      assert y in s'.list <==> y == x || y in s.list;
    }
  }

  /** Unlinking the first node. */
  lemma UnlinkKeepsList(s: State, s': State, t: Thread, x: Node)
    requires Inv(s) && Local(s, s', t, x) && s.head == To(x) && Next(s', x) == Next(s, x)
    requires s'.head == Next(s, x) && s'.list == (if s.list == [] then [] else s.list[1..])
    requires PlaceOf(s', x) != Linked
    ensures s.list != [] && s.list[0] == x && PlaceOf(s, x) == Linked && ListOk(s')
  {
    assert s.list != [] && s.list[0] == x;
    assert x in s.list;
    ChainFrame(s, s', Next(s, x), s.list[1..]);
    forall y ensures y in s'.list <==> PlaceOf(s', y) == Linked {
      assert y in s.list <==> y == x || y in s.list[1..];
    }
  }

  lemma PublishKeeps(s: State, t: Thread)
    requires Inv(s) && t in s.pc && s.pc[t].PublishCas?
    ensures Inv(Advance(s, t))
  {
    hide ListOk, Holders;
    var x, s' := s.pc[t].node, Advance(s, t);
    assert ThreadOk(s, t) && RefsOk(s, x);
    HoldersAfter(s, s', t, x);
    if s.head == s.pc[t].seen {
      LinkKeepsList(s, s', t, x);
    } else {
      ListFrame(s, s', t, x);
    }
    LocalStep(s, s', t, x);
  }

  lemma GiveUpKeeps(s: State, t: Thread)
    requires Inv(s) && t in s.pc && s.pc[t].PublishGiveUp?
    ensures Inv(Advance(s, t))
  {
    hide ListOk, Holders;
    var x, s' := s.pc[t].node, Advance(s, t);
    assert ThreadOk(s, t) && RefsOk(s, x);
    HoldersBound(s, x);
    HoldersAfter(s, s', t, x);
    ListFrame(s, s', t, x);
    LocalStep(s, s', t, x);
  }

  lemma HeadLoadKeeps(s: State, t: Thread)
    requires Inv(s) && t in s.pc && s.pc[t].GetLoadHead?
    ensures Inv(Advance(s, t))
  {
    hide ListOk, Holders;
    var s' := Advance(s, t);
    assert RefsOk(s, 0) && Attended(s, 0);
    HoldersAfter(s, s', t, 0);
    ListFrame(s, s', t, 0);
    LocalStep(s, s', t, 0);
  }

  lemma ReadKeeps(s: State, t: Thread)
    requires Inv(s) && t in s.pc && (s.pc[t].GetLoadRefs? || s.pc[t].GetLoadNext?)
    ensures Inv(Advance(s, t))
  {
    hide ListOk, Holders;
    var x, s' := s.pc[t].node, Advance(s, t);
    assert RefsOk(s, x) && Attended(s, x);
    HoldersAfter(s, s', t, x);
    ListFrame(s, s', t, x);
    LocalStep(s, s', t, x);
  }

  /** Only a node with a list, publisher or taker reference, or with a holder, is referenced by one more. */
  lemma IncrementCounted(s: State, t: Thread)
    requires Inv(s) && t in s.pc && s.pc[t].GetIncrement?
    ensures var x, s' := s.pc[t].node, Advance(s, t);
            RefsOk(s', x) && Attended(s', x) && ThreadOk(s', t) && PlaceOf(s', x) == PlaceOf(s, x)
  {
    hide ListOk, Holders;
    var x, s' := s.pc[t].node, Advance(s, t);
    assert ThreadOk(s, t) && RefsOk(s, x) && Attended(s, x);
    HoldersBound(s, x);
    HoldersAfter(s, s', t, x);
  }

  lemma IncrementLocal(s: State, t: Thread)
    requires t in s.pc && s.pc[t].GetIncrement?
    ensures var x, s' := s.pc[t].node, Advance(s, t);
            Local(s, s', t, x) && s'.head == s.head && s'.list == s.list && s'.next == s.next
  {
  }

  lemma IncrementKeeps(s: State, t: Thread)
    requires Inv(s) && t in s.pc && s.pc[t].GetIncrement?
    ensures Inv(Advance(s, t))
  {
    var x, s' := s.pc[t].node, Advance(s, t);
    IncrementCounted(s, t);
    IncrementLocal(s, t);
    hide Advance, Inv, Local, RefsOk, Attended, ThreadOk, ListOk, PlaceOf, Holders;
    ListFrame(s, s', t, x);
    LocalStep(s, s', t, x);
  }

  lemma GetCasKeeps(s: State, t: Thread)
    requires Inv(s) && t in s.pc && s.pc[t].GetCas?
    ensures Inv(Advance(s, t))
  {
    hide ListOk, Holders;
    var x, s' := s.pc[t].node, Advance(s, t);
    assert ThreadOk(s, t) && RefsOk(s, x) && Attended(s, x);
    HoldersAfter(s, s', t, x);
    if s.head == To(x) {
      UnlinkKeepsList(s, s', t, x);
    } else {
      ListFrame(s, s', t, x);
    }
    LocalStep(s, s', t, x);
  }

  lemma TakeKeeps(s: State, t: Thread)
    requires Inv(s) && t in s.pc && s.pc[t].GetTake?
    ensures Inv(Advance(s, t))
  {
    hide ListOk, Holders;
    var x, s' := s.pc[t].node, Advance(s, t);
    assert ThreadOk(s, t) && RefsOk(s, x) && Attended(s, x);
    HoldersBound(s, x);
    HoldersAfter(s, s', t, x);
    ListFrame(s, s', t, x);
    LocalStep(s, s', t, x);
  }

  /** The word of a node that a try_get lets go, by the place the node is left in. */
  lemma DropCounted(s: State, t: Thread)
    requires Inv(s) && t in s.pc && s.pc[t].GetDrop?
    ensures var x, s' := s.pc[t].node, Advance(s, t);
            && RefsOk(s', x) && Attended(s', x) && ThreadOk(s', t)
            && (PlaceOf(s', x) == PlaceOf(s, x) || (PlaceOf(s, x) == Announced && PlaceOf(s', x) == Building(t)))
  {
    hide ListOk, Holders;
    var x, s' := s.pc[t].node, Advance(s, t);
    assert RefsOk(s, x) && Attended(s, x);
    HoldersBound(s, x);
    HoldersAfter(s, s', t, x);
    if PlaceOf(s, x) == Announced {
      assert Refs(s, x) >= SHOULD_BE_ON_FREELIST + 1;
    } else {
      assert Refs(s, x) != SHOULD_BE_ON_FREELIST + 1;
    }
  }

  lemma DropLocal(s: State, t: Thread)
    requires t in s.pc && s.pc[t].GetDrop?
    ensures var x, s' := s.pc[t].node, Advance(s, t);
            Local(s, s', t, x) && s'.head == s.head && s'.list == s.list && s'.next == s.next
  {
  }

  lemma DropKeeps(s: State, t: Thread)
    requires Inv(s) && t in s.pc && s.pc[t].GetDrop?
    ensures Inv(Advance(s, t))
  {
    var x, s' := s.pc[t].node, Advance(s, t);
    DropCounted(s, t);
    DropLocal(s, t);
    hide Advance, Inv, Local, RefsOk, Attended, ThreadOk, ListOk, PlaceOf, Holders;
    ListFrame(s, s', t, x);
    LocalStep(s, s', t, x);
  }

  lemma StepKeeps(s: State, s': State)
    requires Inv(s) && Step(s, s')
    ensures Inv(s')
  {
    hide Inv, Advance, StartAdd;
    var t :| t in s.pc && (StartGet(s, s', t) || (exists x :: StartAdd(s, s', t, x)) || s' == Advance(s, t));
    if StartGet(s, s', t) {
      StartsKeep(s, s', t, 0);
    } else if x :| StartAdd(s, s', t, x) {
      StartsKeep(s, s', t, x);
    } else {
      match s.pc[t] {
        case Idle => IdleStays(s, t);
        case AddFetchAdd(_) => AddKeeps(s, t);
        case PublishLoadHead(_, _) => BuildKeeps(s, t);
        case PublishSetNext(_, _, _) => BuildKeeps(s, t);
        case PublishSetRefs(_, _, _) => BuildKeeps(s, t);
        case PublishCas(_, _, _) => PublishKeeps(s, t);
        case PublishGiveUp(_, _, _) => GiveUpKeeps(s, t);
        case GetLoadHead => HeadLoadKeeps(s, t);
        case GetLoadRefs(_) => ReadKeeps(s, t);
        case GetIncrement(_, _) => IncrementKeeps(s, t);
        case GetLoadNext(_) => ReadKeeps(s, t);
        case GetCas(_, _) => GetCasKeeps(s, t);
        case GetTake(_) => TakeKeeps(s, t);
        case GetDrop(_, _) => DropKeeps(s, t);
      }
    }
  }

  lemma IdleStays(s: State, t: Thread)
    requires t in s.pc && s.pc[t] == Idle
    ensures Advance(s, t) == s
  {
  }

  lemma {:induction false} RunKeeps(r: seq<State>, i: nat)
    requires Run(r) && i < |r|
    ensures Inv(r[i])
  {
    if i == 0 {
      assert forall x :: Holders(r[0], x) == {};
    } else {
      RunKeeps(r, i - 1);
      assert Step(r[i - 1], r[i - 1 + 1]);
      StepKeeps(r[i - 1], r[i]);
    }
  }

  // ---------------------------------------------------------------- what every run keeps

  /** When try_get is about to hand out a node, no client holds it, no other thread is about to
      hand it out, it is off the list, and (the source's assertion) its top bit is clear. */
  lemma HandedOutToOne(r: seq<State>, i: nat, t: Thread, x: Node)
    requires Run(r) && i < |r| && t in r[i].pc && r[i].pc[t] == GetTake(x)
    ensures PlaceOf(r[i], x) != Client && x !in r[i].list
    ensures forall u :: u in r[i].pc && r[i].pc[u] == GetTake(x) ==> u == t
    ensures Refs(r[i], x) < SHOULD_BE_ON_FREELIST
    ensures PlaceOf(Advance(r[i], t), x) == Client
  {
    RunKeeps(r, i);
    var s := r[i];
    assert ThreadOk(s, t) && RefsOk(s, x);
    HoldersBound(s, x);
    forall u | u in s.pc && s.pc[u] == GetTake(x) ensures u == t {
      assert ThreadOk(s, u);
    }
  }

  /** The word of every node: the low 31 bits count the holders, and one more for the list,
      publisher or taker; the top bit is set exactly while the node waits to be added. */
  lemma ReferenceCount(r: seq<State>, i: nat, x: Node)
    requires Run(r) && i < |r|
    ensures var p := PlaceOf(r[i], x);
            Refs(r[i], x) % SHOULD_BE_ON_FREELIST
              == |Holders(r[i], x)| + (if p.Publishing? || p.Linked? || p.Taken? then 1 else 0)
            && (Refs(r[i], x) >= SHOULD_BE_ON_FREELIST <==> p.Announced? || p.Building?)
            && Refs(r[i], x) < WORD
  {
    RunKeeps(r, i);
    assert RefsOk(r[i], x);
    HoldersBound(r[i], x);
  }

  /** Only one step writes a link. */
  lemma LinkWriter(s: State, t: Thread, x: Node)
    requires t in s.pc && Next(Advance(s, t), x) != Next(s, x)
    ensures s.pc[t].PublishSetNext? && s.pc[t].node == x
  {
  }

  /** No ABA: while a try_get holds a reference to a node, no step changes the node's link. */
  lemma HeldLinkStable(s: State, s': State, u: Thread, x: Node)
    requires Inv(s) && Step(s, s') && u in s.pc && Holds(s.pc[u], x)
    ensures Next(s', x) == Next(s, x)
  {
    hide Advance, ListOk, Attended;
    var t :| t in s.pc && (StartGet(s, s', t) || (exists y :: StartAdd(s, s', t, y)) || s' == Advance(s, t));
    assert u in Holders(s, x) && RefsOk(s, x) && ThreadOk(s, t);
    if s' == Advance(s, t) && Next(s', x) != Next(s, x) {
      LinkWriter(s, t, x);
    }
  }

  lemma {:induction false} NoAba(r: seq<State>, i: nat, j: nat, u: Thread, x: Node)
    requires Run(r) && i <= j < |r|
    requires forall k :: i <= k <= j ==> u in r[k].pc && Holds(r[k].pc[u], x)
    ensures Next(r[j], x) == Next(r[i], x)
    decreases j
  {
    hide Step, Inv, Init, Next, Holds;
    if i < j {
      NoAba(r, i, j - 1, u, x);
      RunKeeps(r, j - 1);
      assert Step(r[j - 1], r[j - 1 + 1]);
      HeldLinkStable(r[j - 1], r[j], u, x);
    }
  }

  /** Whenever try_get's exchange of the head succeeds, the link it read is still the node's link. */
  lemma CasInstallsTheLink(r: seq<State>, i: nat, t: Thread, x: Node, next: Link)
    requires Run(r) && i < |r| && t in r[i].pc && r[i].pc[t] == GetCas(x, next) && r[i].head == To(x)
    ensures Advance(r[i], t).head == Next(r[i], x)
    ensures r[i].list != [] && r[i].list[0] == x && Chain(Advance(r[i], t), Next(r[i], x), r[i].list[1..])
  {
    RunKeeps(r, i);
    assert ThreadOk(r[i], t);
    assert r[i].list[0] == x;
    ChainFrame(r[i], Advance(r[i], t), Next(r[i], x), r[i].list[1..]);
  }

  /** No added node is lost: it is on the list, or one thread is adding or removing it, or its top
      bit is set and some try_get still holds a reference. */
  lemma NothingLost(r: seq<State>, i: nat, x: Node)
    requires Run(r) && i < |r| && PlaceOf(r[i], x) != Client
    ensures Chain(r[i], r[i].head, r[i].list)
    ensures x in r[i].list
            || (exists t :: t in r[i].pc && (AtWork(r[i].pc[t], x) || r[i].pc[t] == GetTake(x)))
            || (Refs(r[i], x) >= SHOULD_BE_ON_FREELIST && exists t :: t in r[i].pc && Holds(r[i].pc[t], x))
  {
    RunKeeps(r, i);
    assert RefsOk(r[i], x) && Attended(r[i], x);
    if PlaceOf(r[i], x).Announced? {
      var t :| t in Holders(r[i], x);
      assert Holds(r[i].pc[t], x);
    }
  }

  /** The thread is inside add, or publishing, on behalf of x. */
  predicate AtWork(p: Pc, x: Node) {
    (p.AddFetchAdd? || p.PublishLoadHead? || p.PublishSetNext? || p.PublishSetRefs? || p.PublishCas?
     || p.PublishGiveUp?)
    && p.node == x
  }

  /** ... and the last of those holders to let go adds it. */
  lemma LastHolderAdds(r: seq<State>, i: nat, t: Thread, x: Node, seen: Link)
    requires Run(r) && i < |r| && t in r[i].pc && r[i].pc[t] == GetDrop(x, seen)
    requires PlaceOf(r[i], x) == Announced
    ensures if Holders(r[i], x) == {t} then Advance(r[i], t).pc[t] == PublishLoadHead(x, Retry(seen))
            else Advance(r[i], t).pc[t] == Loop(seen) && PlaceOf(Advance(r[i], t), x) == Announced
  {
    RunKeeps(r, i);
    assert RefsOk(r[i], x) && t in Holders(r[i], x);
    if |Holders(r[i], x)| == 1 {
      SubsetSize({t}, Holders(r[i], x));
      assert |Holders(r[i], x) - {t}| == 0;
      assert Holders(r[i], x) == {t};
    }
  }

  /** At rest, the list holds exactly the nodes that clients have added and not got back, each with
      a reference count of one; all other counts are zero. */
  lemma AtRest(r: seq<State>, i: nat)
    requires Run(r) && i < |r| && forall t :: t in r[i].pc ==> r[i].pc[t] == Idle
    ensures Chain(r[i], r[i].head, r[i].list)
    ensures forall j, k :: 0 <= j < k < |r[i].list| ==> r[i].list[j] != r[i].list[k]
    ensures forall x :: x in r[i].list <==> PlaceOf(r[i], x) != Client
    ensures forall x :: Refs(r[i], x) == if x in r[i].list then 1 else 0
  {
    RunKeeps(r, i);
    forall x ensures x in r[i].list <==> PlaceOf(r[i], x) != Client {
      assert RefsOk(r[i], x) && Attended(r[i], x);
      assert Holders(r[i], x) == {};
    }
    forall x ensures Refs(r[i], x) == if x in r[i].list then 1 else 0 {
      assert RefsOk(r[i], x);
      assert Holders(r[i], x) == {};
    }
  }

  // ---------------------------------------------------------------- what a call does

  /** n steps of t while nobody else moves. */
  function Alone(s: State, t: Thread, n: nat): State
    decreases n
  {
    if n == 0 || t !in s.pc then s else Alone(Advance(s, t), t, n - 1)
  }

  lemma FirstStep(s: State, t: Thread, n: nat, s': State)
    requires t in s.pc && n > 0 && Advance(s, t) == s'
    ensures Alone(s, t, n) == Alone(s', t, n - 1)
  {
    hide Advance;
  }

  ghost predicate OthersIdle(s: State, t: Thread) {
    forall u :: u in s.pc && u != t ==> s.pc[u] == Idle
  }

  /** The head is the front of the list, and an undisturbed node there has no holder but the list. */
  lemma FrontNode(s: State, t: Thread)
    requires Inv(s) && t in s.pc && OthersIdle(s, t) && s.list != []
    requires forall x :: !Holds(s.pc[t], x)
    ensures s.head == To(s.list[0]) && Refs(s, s.list[0]) == 1 && Next(s, s.list[0]) == HeadOf(s.list[1..])
  {
    var x := s.list[0];
    assert x in s.list && RefsOk(s, x);
    assert Holders(s, x) == {};
    assert Chain(s, Next(s, x), s.list[1..]);
  }

  function HeadOf(l: seq<Node>): Link { if l == [] then Null else To(l[0]) }

  lemma LooksAt(s: State, t: Thread, x: Node)
    requires t in s.pc && s.pc[t] == GetLoadHead && s.head == To(x)
    ensures Advance(s, t) == Goto(s, t, GetLoadRefs(x))
  {
  }

  lemma Counts(s: State, t: Thread, x: Node)
    requires t in s.pc && s.pc[t] == GetLoadRefs(x) && Refs(s, x) == 1
    ensures Advance(s, t) == Goto(s, t, GetIncrement(x, 1))
  {
  }

  lemma Increments(s: State, t: Thread, x: Node)
    requires t in s.pc && s.pc[t] == GetIncrement(x, 1) && Refs(s, x) == 1
    ensures Advance(s, t) == Goto(s, t, GetLoadNext(x)).(refs := s.refs[x := 2])
  {
  }

  lemma Unlinks(s: State, t: Thread, x: Node, next: Link)
    requires t in s.pc && s.pc[t] == GetCas(x, next) && s.head == To(x) && s.list != []
    ensures Advance(s, t) == State(next, s.next, s.refs, s.pc[t := GetTake(x)], s.list[1..], s.place[x := Taken(t)])
  {
  }

  lemma HandsOut(s: State, t: Thread, x: Node)
    requires t in s.pc && s.pc[t] == GetTake(x) && Refs(s, x) == 2
    ensures Advance(s, t) == State(s.head, s.next, s.refs[x := 0], s.pc[t := Idle], s.list, s.place[x := Client])
  {
  }

  lemma GetPathBegins(s: State, t: Thread, x: Node)
    requires t in s.pc && s.pc[t] == GetLoadHead && s.head == To(x) && Refs(s, x) == 1
    ensures Alone(s, t, 6) == Alone(Goto(s, t, GetLoadNext(x)).(refs := s.refs[x := 2]), t, 3)
  {
    hide Advance, Alone;
    LooksAt(s, t, x);
    var s1 := Advance(s, t);
    FirstStep(s, t, 6, s1);
    Counts(s1, t, x);
    var s2 := Advance(s1, t);
    FirstStep(s1, t, 5, s2);
    Increments(s2, t, x);
    var s3 := Advance(s2, t);
    FirstStep(s2, t, 4, s3);
    assert s3.pc == s.pc[t := GetLoadNext(x)];
  }

  /** Unhindered, try_get increments the count of the front node, unlinks the node and decrements the count twice. */
  lemma GetPath(s: State, t: Thread, x: Node)
    requires t in s.pc && s.pc[t] == GetLoadHead && s.head == To(x) && Refs(s, x) == 1 && s.list != []
    ensures Alone(s, t, 6) ==
            State(Next(s, x), s.next, s.refs[x := 0], s.pc[t := Idle], s.list[1..], s.place[x := Client])
  {
    hide Advance, Alone;
    GetPathBegins(s, t, x);
    var s3 := Goto(s, t, GetLoadNext(x)).(refs := s.refs[x := 2]);
    GetPathEnds(s3, t, x, Next(s, x));
    assert s3.refs[x := 0] == s.refs[x := 0] && s3.pc[t := Idle] == s.pc[t := Idle];
  }

  lemma GetPathEnds(s: State, t: Thread, x: Node, next: Link)
    requires t in s.pc && s.pc[t] == GetLoadNext(x) && s.head == To(x) && Refs(s, x) == 2 && Next(s, x) == next
    requires s.list != []
    ensures Alone(s, t, 3) == State(next, s.next, s.refs[x := 0], s.pc[t := Idle], s.list[1..], s.place[x := Client])
  {
    var s1 := Goto(s, t, GetCas(x, next));
    assert Advance(s, t) == s1;
    hide Advance, Alone;
    FirstStep(s, t, 3, s1);
    Unlinks(s1, t, x, next);
    var s2 := Advance(s1, t);
    FirstStep(s1, t, 2, s2);
    HandsOut(s2, t, x);
    var s3 := Advance(s2, t);
    FirstStep(s2, t, 1, s3);
    NoStep(s3, t);
    assert s2.place[x := Client] == s.place[x := Client] && s2.pc[t := Idle] == s.pc[t := Idle];
  }

  lemma NoStep(s: State, t: Thread)
    ensures Alone(s, t, 0) == s
  {
  }

  /** An uncontended try_get takes the first node of the list and hands it out. */
  lemma UncontendedGet(s: State, s': State, t: Thread)
    requires Inv(s) && OthersIdle(s, t) && StartGet(s, s', t) && s.list != []
    ensures var e := Alone(s', t, 6);
            && e.pc == s.pc && PlaceOf(e, s.list[0]) == Client
            && e.list == s.list[1..] && e.head == HeadOf(s.list[1..])
            && forall x :: x != s.list[0] ==> PlaceOf(e, x) == PlaceOf(s, x)
  {
    FrontNode(s, t);
    hide Inv, Alone, Advance;
    GetPath(s', t, s.list[0]);
    assert s'.pc[t := Idle] == s.pc;
  }

  /** An uncontended try_get of an empty list returns null at once. */
  lemma UncontendedGetOfNone(s: State, s': State, t: Thread)
    requires Inv(s) && StartGet(s, s', t) && s.list == []
    ensures Alone(s', t, 1) == s
  {
  }

  lemma Announces(s: State, t: Thread, x: Node)
    requires t in s.pc && s.pc[t] == AddFetchAdd(x) && Refs(s, x) == 0
    ensures Advance(s, t) ==
            State(s.head, s.next, s.refs[x := SHOULD_BE_ON_FREELIST], s.pc[t := PublishLoadHead(x, Return)], s.list,
                  s.place[x := Building(t)])
  {
  }

  lemma Builds(s: State, t: Thread, x: Node)
    requires t in s.pc && s.pc[t] == PublishSetNext(x, s.head, Return)
    ensures Advance(s, t) == Goto(s, t, PublishSetRefs(x, s.head, Return)).(next := s.next[x := s.head])
  {
  }

  lemma Publishes(s: State, t: Thread, x: Node, seen: Link)
    requires t in s.pc && s.pc[t] == PublishSetRefs(x, seen, Return)
    ensures Advance(s, t) ==
            State(s.head, s.next, s.refs[x := 1], s.pc[t := PublishCas(x, seen, Return)], s.list,
                  s.place[x := Publishing(t)])
  {
  }

  lemma Links(s: State, t: Thread, x: Node)
    requires t in s.pc && s.pc[t] == PublishCas(x, s.head, Return)
    ensures Advance(s, t) ==
            State(To(x), s.next, s.refs, s.pc[t := Idle], [x] + s.list, s.place[x := Linked])
  {
  }

  /** Unhindered, add prepares the node and links it in front. */
  lemma AddPath(s: State, t: Thread, x: Node)
    requires t in s.pc && s.pc[t] == PublishLoadHead(x, Return)
    ensures Alone(s, t, 4) ==
            State(To(x), s.next[x := s.head], s.refs[x := 1], s.pc[t := Idle], [x] + s.list, s.place[x := Linked])
  {
    var s1 := Goto(s, t, PublishSetNext(x, s.head, Return));
    assert Advance(s, t) == s1;
    hide Advance, Alone;
    FirstStep(s, t, 4, s1);
    Builds(s1, t, x);
    var s2 := Advance(s1, t);
    FirstStep(s1, t, 3, s2);
    assert s2.pc == s.pc[t := PublishSetRefs(x, s.head, Return)];
    AddPathEnds(s2, t, x);
    assert s2.pc[t := Idle] == s.pc[t := Idle];
  }

  lemma AddPathEnds(s: State, t: Thread, x: Node)
    requires t in s.pc && s.pc[t] == PublishSetRefs(x, s.head, Return)
    ensures Alone(s, t, 2) ==
            State(To(x), s.next, s.refs[x := 1], s.pc[t := Idle], [x] + s.list, s.place[x := Linked])
  {
    hide Advance, Alone;
    Publishes(s, t, x, s.head);
    var s1 := Advance(s, t);
    FirstStep(s, t, 2, s1);
    Links(s1, t, x);
    var s2 := Advance(s1, t);
    FirstStep(s1, t, 1, s2);
    NoStep(s2, t);
    assert s2.pc == s.pc[t := Idle] && s2.place == s.place[x := Linked];
  }

  /** An uncontended add puts the node at the front of the list. */
  lemma UncontendedAdd(s: State, s': State, t: Thread, x: Node)
    requires Inv(s) && OthersIdle(s, t) && StartAdd(s, s', t, x)
    ensures var e := Alone(s', t, 5);
            && e.pc == s.pc && e.list == [x] + s.list && e.head == To(x) && PlaceOf(e, x) == Linked
            && forall y :: y != x ==> PlaceOf(e, y) == PlaceOf(s, y)
  {
    assert Holders(s, x) == {} && RefsOk(s, x);
    hide Advance, Alone, Inv;
    Announces(s', t, x);
    var s1 := Advance(s', t);
    FirstStep(s', t, 5, s1);
    AddPath(s1, t, x);
    assert s1.pc[t := Idle] == s.pc;
  }

  // ---------------------------------------------------------------- when try_get returns null

  /** Inside try_get: publishing only to go on with it, not yet with a node in hand. */
  predicate InGet(p: Pc) {
    match p
    case PublishLoadHead(_, back) => back.Retry?
    case PublishSetNext(_, _, back) => back.Retry?
    case PublishSetRefs(_, _, back) => back.Retry?
    case PublishCas(_, _, back) => back.Retry?
    case PublishGiveUp(_, _, back) => back.Retry?
    case Idle => false
    case AddFetchAdd(_) => false
    case GetTake(_) => false
    case _ => true
  }

  /** The head with which it will go on was null. */
  predicate SawNull(p: Pc) {
    match p
    case PublishLoadHead(_, back) => back == Retry(Null)
    case PublishSetNext(_, _, back) => back == Retry(Null)
    case PublishSetRefs(_, _, back) => back == Retry(Null)
    case PublishCas(_, _, back) => back == Retry(Null)
    case PublishGiveUp(_, _, back) => back == Retry(Null)
    case GetDrop(_, seen) => seen == Null
    case Idle => true
    case _ => false
  }

  /** A step inside a try_get sees null only at the head, or goes on from having seen it. */
  lemma StepSees(s: State, t: Thread)
    requires t in s.pc && InGet(s.pc[t]) && t in Advance(s, t).pc
    ensures var p := Advance(s, t).pc[t]; InGet(p) || p == Idle || p.GetTake?
    ensures SawNull(Advance(s, t).pc[t]) ==> SawNull(s.pc[t]) || s.head == Null
  {
    hide StepAdd, StepPublishCas, StepGiveUp, StepGetCas, StepDrop;
    match s.pc[t] {
      case PublishCas(x, seen, back) => PublishMoves(s, t, x, seen, back);
      case PublishGiveUp(x, seen, back) => PublishMoves(s, t, x, seen, back);
      case GetCas(x, next) => CasMoves(s, t, x, next);
      case GetDrop(x, seen) => DropMoves(s, t, x, seen);
      case _ =>
    }
  }

  lemma StepOfOther(s: State, s': State, t: Thread)
    requires Step(s, s') && t in s.pc && s.pc[t] != Idle
    ensures t in s'.pc && (s'.pc[t] == s.pc[t] || s' == Advance(s, t))
  {
    hide Advance;
    var u :| u in s.pc && (StartGet(s, s', u) || (exists x :: StartAdd(s, s', u, x)) || s' == Advance(s, u));
    if s' == Advance(s, u) { OnlyMoves(s, u, t); }
  }

  lemma OnlyMoves(s: State, t: Thread, u: Thread)
    requires t in s.pc && u in s.pc
    ensures u in Advance(s, t).pc && (u != t ==> Advance(s, t).pc[u] == s.pc[u])
  {
    hide StepAdd, StepPublishCas, StepGiveUp, StepGetCas, StepDrop;
    match s.pc[t] {
      case AddFetchAdd(x) => AddMoves(s, t, x);
      case PublishCas(x, seen, back) => PublishMoves(s, t, x, seen, back);
      case PublishGiveUp(x, seen, back) => PublishMoves(s, t, x, seen, back);
      case GetCas(x, next) => CasMoves(s, t, x, next);
      case GetDrop(x, seen) => DropMoves(s, t, x, seen);
      case _ =>
    }
  }

  /** Only t moves, to p or to q. */
  ghost predicate Moves(s: State, s': State, t: Thread, p: Pc, q: Pc) {
    s'.pc == s.pc[t := p] || s'.pc == s.pc[t := q]
  }

  lemma AddMoves(s: State, t: Thread, x: Node)
    ensures Moves(s, StepAdd(s, t, x), t, PublishLoadHead(x, Return), Idle)
  {
  }

  lemma PublishMoves(s: State, t: Thread, x: Node, seen: Link, back: Back)
    ensures Moves(s, StepPublishCas(s, t, x, seen, back), t, Resume(back), PublishGiveUp(x, s.head, back))
    ensures Moves(s, StepGiveUp(s, t, x, seen, back), t, Resume(back), PublishSetNext(x, seen, back))
  {
  }

  lemma CasMoves(s: State, t: Thread, x: Node, next: Link)
    ensures Moves(s, StepGetCas(s, t, x, next), t, GetTake(x), GetDrop(x, s.head))
  {
  }

  lemma DropMoves(s: State, t: Thread, x: Node, seen: Link)
    ensures Moves(s, StepDrop(s, t, x, seen), t, PublishLoadHead(x, Retry(seen)), Loop(seen))
  {
  }

  lemma BeginsInGet()
    ensures InGet(GetLoadHead) && !SawNull(GetLoadHead) && !InGet(Idle) && SawNull(Idle)
  {
  }

  lemma {:induction false} NullWasSeen(r: seq<State>, i: nat, k: nat, t: Thread)
    requires Run(r) && i < k < |r| && StartGet(r[i], r[i + 1], t)
    requires forall j :: i < j < k ==> t in r[j].pc && InGet(r[j].pc[t])
    requires t in r[k].pc && SawNull(r[k].pc[t])
    ensures exists j :: i < j < k && r[j].list == []
    decreases k
  {
    hide Advance, Step, SawNull, InGet, RefsOk, Attended, ThreadOk, Init;
    BeginsInGet();
    if k > i + 1 {
      var s := r[k - 1];
      RunKeeps(r, k - 1);
      assert Step(r[k - 1], r[k - 1 + 1]);
      StepOfOther(s, r[k], t);
      if r[k] == Advance(s, t) { StepSees(s, t); }
      if SawNull(s.pc[t]) { NullWasSeen(r, i, k - 1, t); }
    }
  }

  /** In every run: a try_get that returns null found the list empty at some moment of the call. */
  lemma NullMeansEmpty(r: seq<State>, i: nat, k: nat, t: Thread)
    requires Run(r) && i < k < |r| && StartGet(r[i], r[i + 1], t) && t in r[k].pc && r[k].pc[t] == Idle
    requires forall j :: i < j < k ==> t in r[j].pc && r[j].pc[t] != Idle && !r[j].pc[t].GetTake?
    ensures exists j :: i < j < k && r[j].list == []
  {
    hide Run, StartGet;
    BeginsInGet();
    StaysInGet(r, i, k, t);
    NullWasSeen(r, i, k, t);
  }

  lemma {:induction false} StaysInGet(r: seq<State>, i: nat, k: nat, t: Thread)
    requires Run(r) && i < k < |r| && StartGet(r[i], r[i + 1], t)
    requires forall j :: i < j < k ==> t in r[j].pc && r[j].pc[t] != Idle && !r[j].pc[t].GetTake?
    ensures forall j :: i < j < k ==> t in r[j].pc && InGet(r[j].pc[t])
    decreases k
  {
    hide Advance, Step, SawNull, InGet, RefsOk, Attended, ThreadOk, Init;
    if k > i + 1 {
      StaysInGet(r, i, k - 1, t);
      BeginsInGet();
      if k - 1 > i + 1 {
        var s := r[k - 2];
        RunKeeps(r, k - 2);
        assert Step(r[k - 2], r[k - 2 + 1]);
        StepOfOther(s, r[k - 1], t);
        if r[k - 1] == Advance(s, t) { StepSees(s, t); }
      }
    }
  }
}
