/** Whole runs of the linked arena, with its real marks, against the arena as a value. */
module ArenaReplays {
  import opened Texts
  import opened ArenaModel
  import opened ArenaMarks
  import opened ArenaOrders
  import opened Arenas

  /** What a caller gets back: memory, a mark, whether a restore was accepted, or nothing. */
  datatype Answer = Memory(block: ArenaBlock?, offset: nat) | Marked | Restored(ok: bool) | Cleared

  datatype Reply = Given(address: Option<Address>) | Noted | Undone(ok: bool) | Emptied

  ghost function ReplyOf(a: Answer): Reply {
    match a
    case Memory(block, offset) => Given(if block == null then None else Some(Address(block.id, offset)))
    case Marked => Noted
    case Restored(ok) => Undone(ok)
    case Cleared => Emptied
  }

  /** What the arena as a value replies. */
  function Respond(t: Timeline, s: Step): Reply {
    match s
    case Request(size, granted) => Given(Alloc(t.arena, size, granted, t.nextId).1)
    case Remember => Noted
    case GoBack(k) => Undone(k < |t.marks| && Restore(t.arena, t.marks[k].mark).Some?)
    case Discard => Emptied
  }

  function Replies(t: Timeline, steps: seq<Step>): seq<Reply>
    decreases steps
  {
    if steps == [] then [] else [Respond(t, steps[0])] + Replies(Go(t, steps[0]), steps[1..])
  }

  ghost function RepliesOf(answers: seq<Answer>): seq<Reply> {
    seq(|answers|, i requires 0 <= i < |answers| => ReplyOf(answers[i]))
  }

  lemma {:induction false} RepliesSnoc(answers: seq<Answer>, a: Answer)
    ensures RepliesOf(answers + [a]) == RepliesOf(answers) + [ReplyOf(a)]
  {
    hide ReplyOf;
  }

  /** The linked arena and the marks taken of it are those of the timeline. */
  ghost predicate Stands(arena: LinkedArena, marks: seq<ArenaMark>, t: Timeline)
    reads arena, arena.chain
  {
    && arena.Valid() && arena.model == t.arena && arena.nextId == t.nextId
    && MarksMatch(arena, arena.minted, marks, t.marks)
  }

  ghost predicate MarksMatch(arena: LinkedArena, minted: set<ArenaBlock>, marks: seq<ArenaMark>, dated: seq<Dated>) {
    && |marks| == |dated|
    && forall k :: 0 <= k < |marks| ==>
         && marks[k].owner == arena && MarkOf(marks[k]) == dated[k].mark
         && (marks[k].block != null ==> marks[k].block in minted)
  }

  /** One step of a run. */
  method Do(arena: LinkedArena, marks: seq<ArenaMark>, ghost t: Timeline, s: Step)
    returns (more: seq<ArenaMark>, answer: Answer)
    requires Stands(arena, marks, t)
    modifies arena, arena.chain
    ensures Stands(arena, more, Go(t, s)) && ReplyOf(answer) == Respond(t, s)
    ensures forall b :: b in arena.minted ==> b in old(arena.minted) || fresh(b)
  {
    hide LinkedArena.Valid, Alloc, Restore, Reset, TakeMark;
    more := marks;
    match s
    case Request(size, granted) =>
      var block, offset := arena.Alloc(size, granted);
      answer := Memory(block, offset);
    case Remember =>
      var mark := arena.Mark();
      more := marks + [mark];
      answer := Marked;
    case GoBack(k) =>
      if k < |marks| {
        var ok := arena.Restore(marks[k]);
        answer := Restored(ok);
      } else {
        answer := Restored(false);
      }
    case Discard =>
      arena.Reset();
      answer := Cleared;
  }

  /** Main result: over any run, with marks restored in whatever order, the linked arena hands out
      the addresses and accepts the restores of the arena as a value; what it reports at the end
      are the sums over the block list; and once it is destroyed every block it made is freed. */
  method Replay(blockSize: nat, steps: seq<Step>)
    returns (answers: seq<Answer>, blocks: nat, reserved: nat, bumped: nat, handedOut: nat,
             ghost leaked: set<ArenaBlock>)
    requires blockSize > 0
    ensures RepliesOf(answers) == Replies(Begin(blockSize), steps)
    ensures (var bs := GoAll(Begin(blockSize), steps).arena.blocks;
             && blocks == |bs| && reserved == TotalCapacity(bs)
             && (Discards(steps) < SIZE_LIMIT ==> bumped == TotalUsed(bs) && handedOut == TotalCount(bs)))
    ensures leaked == {}
  {
    hide LinkedArena.Valid, Go, Respond, ReplyOf, RepliesOf, Inv, TotalCapacity, TotalUsed, TotalCount, Sound,
         MarksMatch;
    var arena := new LinkedArena(blockSize);
    var marks: seq<ArenaMark> := [];
    answers := [];
    ghost var t := Begin(blockSize);
    NothingYet(arena, blockSize);
    for n := 0 to |steps|
      invariant fresh(arena) && Stands(arena, marks, t) && forall b :: b in arena.minted ==> fresh(b)
      invariant RepliesOf(answers) + Replies(t, steps[n..]) == Replies(Begin(blockSize), steps)
      invariant GoAll(t, steps[n..]) == GoAll(Begin(blockSize), steps)
    {
      var answer;
      ListIsMinted(arena);
      assert forall i :: 0 <= i < |arena.chain| ==> fresh(arena.chain[i]);
      RunStep(t, steps[n..]);
      assert steps[n..][1..] == steps[n + 1..];
      marks, answer := Do(arena, marks, t, steps[n]);
      RepliesSnoc(answers, answer);
      answers := answers + [answer];
      t := Go(t, steps[n]);
    }
    assert steps[|steps|..] == [];
    blocks, reserved, bumped, handedOut := arena.Stats();
    if Discards(steps) < SIZE_LIMIT {
      RunsStaySafe(blockSize, steps);
      SoundCounts(t);
    }
    arena.Destroy();
    leaked := arena.minted - arena.freed;
  }

  lemma {:induction false} NothingYet(arena: LinkedArena, blockSize: nat)
    requires arena.Valid() && arena.model == Empty(blockSize) && arena.nextId == 0
    ensures Stands(arena, [], Begin(blockSize)) && RepliesOf([]) == []
  {
    hide LinkedArena.Valid, ReplyOf;
  }

  lemma {:induction false} ListIsMinted(arena: LinkedArena)
    requires arena.Valid()
    ensures forall i :: 0 <= i < |arena.chain| ==> arena.chain[i] in arena.minted
  {
    hide Laid;
    assert forall i :: 0 <= i < |arena.chain| ==> arena.chain[i] in arena.chain;
  }

  lemma {:induction false} RunStep(t: Timeline, steps: seq<Step>)
    requires steps != []
    ensures Replies(t, steps) == [Respond(t, steps[0])] + Replies(Go(t, steps[0]), steps[1..])
    ensures GoAll(t, steps) == GoAll(Go(t, steps[0]), steps[1..])
  {
    hide Go, Respond;
  }

  lemma {:induction false} SoundCounts(t: Timeline)
    requires Sound(t)
    ensures Inv(t.arena)
  {
    hide Inv, AllHeld, MarkSound;
  }
}
