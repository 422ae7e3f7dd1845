/**
 * The session state that threads share (tg/header.c, tg/ack.c): numbers, acknowledgements and drops, region by
 * region.
 */
module Sessions {
  import opened Arith
  import opened Bytes
  import opened TlPrimitives
  import opened TlSchema
  import opened Framing

  // ---------- sequence numbers ----------

  /** A message made: whether it is content-related, and its number. */
  datatype Issued = Issued(content: bool, seqno: nat)

  function ContentCount(log: seq<Issued>): nat {
    if log == [] then 0 else ContentCount(log[..|log| - 1]) + (if log[|log| - 1].content then 1 else 0)
  }

  /** Each number counts the content messages before it, doubled; content messages are odd. */
  ghost predicate Numbered(start: nat, log: seq<Issued>) {
    forall i :: 0 <= i < |log| ==>
      log[i].seqno == 2 * (start + ContentCount(log[..i])) + (if log[i].content then 1 else 0)
  }

  lemma NumberedNext(start: nat, log: seq<Issued>, m: Issued)
    requires Numbered(start, log)
    requires m.seqno == 2 * (start + ContentCount(log)) + (if m.content then 1 else 0)
    ensures Numbered(start, log + [m])
    ensures ContentCount(log + [m]) == ContentCount(log) + (if m.content then 1 else 0)
  {
    var n := log + [m];
    assert n[..|log|] == log;
    forall i | 0 <= i < |n|
      ensures n[i].seqno == 2 * (start + ContentCount(n[..i])) + (if n[i].content then 1 else 0)
    {
      assert i < |log| ==> n[..i] == log[..i] && n[i] == log[i];
    }
  }

  /** The numbers of the content messages of a log, in order. */
  function ContentNumbers(log: seq<Issued>): seq<nat> {
    if log == [] then []
    else ContentNumbers(log[..|log| - 1]) + (if log[|log| - 1].content then [log[|log| - 1].seqno] else [])
  }

  /** The i-th content message has number 2(start + i) + 1. */
  lemma {:induction false} ContentNumbersAreOdd(start: nat, log: seq<Issued>)
    requires Numbered(start, log)
    ensures |ContentNumbers(log)| == ContentCount(log)
    ensures forall i :: 0 <= i < |ContentNumbers(log)| ==> ContentNumbers(log)[i] == 2 * (start + i) + 1
  {
    if log != [] {
      var init, last := log[..|log| - 1], log[|log| - 1];
      assert forall i :: 0 <= i < |init| ==> init[..i] == log[..i] && init[i] == log[i];
      ContentNumbersAreOdd(start, init);
      assert last == log[|log| - 1];
    }
  }

  lemma {:induction false} ContentCountGrows(log: seq<Issued>, i: nat, j: nat)
    requires i < j <= |log|
    ensures ContentCount(log[..j]) >= ContentCount(log[..i]) + (if log[i].content then 1 else 0)
    decreases j
  {
    var t := log[..j];
    assert t[..j - 1] == log[..j - 1] && t[j - 1] == log[j - 1];
    if i < j - 1 {
      ContentCountGrows(log, i, j - 1);
    }
  }

  // ---------- numbers a thread took among others ----------

  /** At the increasing places `at`, from `from` on, the log holds `taken`. */
  ghost predicate Took(log: seq<Issued>, from: nat, at: seq<nat>, taken: seq<Issued>) {
    && |at| == |taken|
    && (forall i :: 0 <= i < |at| ==> from <= at[i] < |log| && log[at[i]] == taken[i])
    && forall i, j :: 0 <= i < j < |at| ==> at[i] < at[j]
  }

  lemma TookMore(log: seq<Issued>, from: nat, at: seq<nat>, taken: seq<Issued>, later: seq<Issued>, m: Issued)
    requires Took(log, from, at, taken) && log <= later && from <= |log|
    ensures Took(later + [m], from, at + [|later|], taken + [m])
  {
  }

  lemma TookStill(log: seq<Issued>, from: nat, at: seq<nat>, taken: seq<Issued>, later: seq<Issued>)
    requires Took(log, from, at, taken) && log <= later
    ensures Took(later, from, at, taken)
  {
  }

  function Numbers(taken: seq<Issued>): (ns: seq<nat>)
    ensures |ns| == |taken| && forall i :: 0 <= i < |ns| ==> ns[i] == taken[i].seqno
  {
    seq<nat>(|taken|, i requires 0 <= i < |taken| => taken[i].seqno)
  }

  /**
   Whatever other threads did between, the numbers of one thread rise from message to message; only two
   messages that are not content-related can have the same.
   */
  lemma TakenInOrder(start: nat, log: seq<Issued>, from: nat, at: seq<nat>, taken: seq<Issued>, i: nat, j: nat)
    requires Numbered(start, log) && Took(log, from, at, taken) && i < j < |taken|
    ensures || taken[i].seqno < taken[j].seqno
            || (taken[i].seqno == taken[j].seqno && !taken[i].content && !taken[j].content)
    ensures taken[i].content ==> taken[i].seqno % 2 == 1
  {
    ContentCountGrows(log, at[i], at[j]);
    hide ContentCount;
    assert log[at[i]] == taken[i] && log[at[j]] == taken[j];
  }

  function Flatten(parts: seq<seq<nat>>): seq<nat> {
    if parts == [] then [] else Flatten(parts[..|parts| - 1]) + parts[|parts| - 1]
  }

  lemma FlattenNext(parts: seq<seq<nat>>, last: seq<nat>)
    ensures Flatten(parts + [last]) == Flatten(parts) + last
  {
    assert (parts + [last])[..|parts|] == parts;
  }

  lemma {:induction false} FlattenMonotone(parts: seq<seq<nat>>, more: seq<seq<nat>>)
    requires parts <= more
    ensures Flatten(parts) <= Flatten(more)
    decreases |more|
  {
    if parts != more {
      FlattenMonotone(parts, more[..|more| - 1]);
      assert Flatten(more) == Flatten(more[..|more| - 1]) + more[|more| - 1];
    }
  }

  // ---------- the shared state ----------

  /** One region, as any thread may enter it when the mutex it needs is free. */
  datatype Region =
    | TakeNumber(content: bool)    // tg_mtp_message, tg_header: under seqnm
    | AddId(id: nat)               // tg_add_msgid
    | TakeAcks                     // tg_ack
    | AddDrop(id: nat)             // tg_add_todrop
    | BeginDrops                   // tg_to_drop: locks todropm
    | MakeDrop(clock: nat)         // tg_to_drop: one message, under seqnm while todropm is held
    | EndDrops                     // tg_to_drop: empties the list and unlocks

  function IdsAdded(regions: seq<Region>): seq<nat> {
    if regions == [] then []
    else (if regions[0].AddId? then [regions[0].id] else []) + IdsAdded(regions[1..])
  }

  lemma {:induction false} IdsAddedNext(regions: seq<Region>, i: nat)
    requires i < |regions|
    ensures IdsAdded(regions[..i + 1]) == IdsAdded(regions[..i]) + (if regions[i].AddId? then [regions[i].id] else [])
  {
    if i == 0 {
      assert regions[..1] == [regions[0]] && regions[..0] == [];
      assert IdsAdded([regions[0]][1..]) == [];
    } else {
      IdsAddedNext(regions[1..], i - 1);
      assert regions[1..][..i] == regions[..i + 1][1..] && regions[1..][..i - 1] == regions[..i][1..];
    }
  }

  lemma NoIdsYet(regions: seq<Region>, ids: seq<nat>)
    ensures ids == ids + IdsAdded(regions[..0])
  {
  }

  // ---------- the regions on values ----------

  /** The state the regions change. */
  datatype Shared = Shared(seqn: nat, msgids: seq<nat>, todrop: seq<nat>, held: bool, made: nat, log: seq<Issued>,
                           added: seq<nat>, acked: seq<seq<nat>>, dropAdded: seq<nat>, dropped: seq<seq<nat>>)

  /** A thread can enter this region now; `mine` says that `todropm` is held by the thread that asks. */
  predicate Enabled(s: Shared, region: Region, mine: bool) {
    match region
    case AddDrop(_) => !s.held
    case BeginDrops => !s.held
    case MakeDrop(_) => s.held && !mine && s.made < |s.todrop|
    case EndDrops => s.held && !mine && s.made == |s.todrop|
    case _ => true
  }

  function WithNumber(s: Shared, content: bool): Shared {
    var one := if content then 1 else 0;
    s.(seqn := s.seqn + one, log := s.log + [Issued(content, 2 * s.seqn + one)])
  }

  /** What one region does. */
  function After(s: Shared, region: Region): Shared {
    match region
    case TakeNumber(content) => WithNumber(s, content)
    case AddId(id) => s.(msgids := s.msgids + [id], added := s.added + [id])
    case TakeAcks => if s.msgids == [] then s else s.(msgids := [], acked := s.acked + [s.msgids])
    case AddDrop(id) => s.(todrop := s.todrop + [id], dropAdded := s.dropAdded + [id])
    case BeginDrops => s.(held := true)
    case MakeDrop(_) => WithNumber(s, true).(made := s.made + 1)
    case EndDrops => s.(todrop := [], held := false, made := 0, dropped := s.dropped + [s.todrop])
  }

  /** Regions one after the other; a region whose mutex is not free waits its turn, so it does not happen here. */
  function Interleaved(s: Shared, regions: seq<Region>, mine: bool): Shared {
    if regions == [] then s
    else
      var t, last := Interleaved(s, regions[..|regions| - 1], mine), regions[|regions| - 1];
      if Enabled(t, last, mine) then After(t, last) else t
  }

  /** Nothing that was numbered, added, acknowledged or dropped is lost. */
  ghost predicate Grown(s: Shared, t: Shared) {
    && s.log <= t.log && s.added <= t.added && s.acked <= t.acked
    && s.dropAdded <= t.dropAdded && s.dropped <= t.dropped
  }

  lemma GrownParts(s: Shared, t: Shared)
    requires Grown(s, t)
    ensures s.log <= t.log && s.added <= t.added && s.acked <= t.acked
    ensures s.dropAdded <= t.dropAdded && s.dropped <= t.dropped
  {
  }

  lemma LaterIsGrown(s: Shared, t: Shared)
    requires s.log <= t.log && s.added == t.added && s.acked <= t.acked
    requires s.dropAdded == t.dropAdded && s.dropped <= t.dropped
    ensures Grown(s, t)
  {
  }

  lemma GrownTrans(s: Shared, t: Shared, u: Shared)
    requires Grown(s, t) && Grown(t, u)
    ensures Grown(s, u)
  {
  }

  lemma InterleavedNext(s: Shared, regions: seq<Region>, i: nat, mine: bool)
    requires i < |regions|
    ensures var t := Interleaved(s, regions[..i], mine);
            Interleaved(s, regions[..i + 1], mine) == if Enabled(t, regions[i], mine) then After(t, regions[i]) else t
  {
    assert regions[..i + 1][..i] == regions[..i];
    hide Enabled, After;
  }

  lemma NothingInterleaved(s: Shared, regions: seq<Region>, mine: bool)
    ensures Interleaved(s, regions[..0], mine) == s
    ensures regions == [] ==> Interleaved(s, regions, mine) == s
  {
  }

  /** The fields of `tg_t` this layer uses. Every stretch of code under a mutex is one method. */
  class Session {
    var seqn: nat
    var msgids: seq<nat>
    var todrop: seq<nat>
    /** Whether some thread holds `todropm` in `tg_to_drop`, and how many messages it has made. */
    var held: bool
    var made: nat
    var salt: seq<Byte>
    var ssid: seq<Byte>
    /** The counter at the last reset, and every message numbered since. */
    ghost var start: nat
    ghost var log: seq<Issued>
    /** Every id given to `tg_add_msgid`, and every acknowledgement made, oldest first; likewise for drops. */
    ghost var added: seq<nat>
    ghost var acked: seq<seq<nat>>
    ghost var dropAdded: seq<nat>
    ghost var dropped: seq<seq<nat>>

    ghost predicate Valid()
      reads this
    {
      && Numbered(start, log) && seqn == start + ContentCount(log)
      && added == Flatten(acked) + msgids
      && dropAdded == Flatten(dropped) + todrop
      && made <= |todrop| && (!held ==> made == 0)
      && |salt| == 8 && |ssid| == 8
    }

    ghost function State(): Shared
      reads this
    {
      Shared(seqn, msgids, todrop, held, made, log, added, acked, dropAdded, dropped)
    }

    lemma StateIs()
      ensures var s := State();
              && s.log == log && s.added == added && s.acked == acked && s.dropAdded == dropAdded
              && s.dropped == dropped && Grown(s, s)
    {
    }

    constructor (seqn: nat, salt: seq<Byte>, ssid: seq<Byte>)
      requires |salt| == 8 && |ssid| == 8
      ensures Valid() && this.seqn == seqn && msgids == [] && todrop == [] && this.salt == salt && this.ssid == ssid
      ensures log == [] && added == [] && acked == [] && dropAdded == [] && dropped == [] && !held
    {
      this.seqn, this.salt, this.ssid := seqn, salt, ssid;
      msgids, todrop, held, made := [], [], false, 0;
      start, log := seqn, [];
      added, acked, dropAdded, dropped := [], [], [], [];
    }

    /** A new key: the counter starts again. */
    method Reset(seqn: nat)
      requires Valid()
      modifies this`seqn, this`start, this`log
      ensures Valid() && this.seqn == start == seqn && log == []
    {
      hide Flatten;
      this.seqn, start, log := seqn, seqn, [];
    }

    // ---------- the regions ----------

    /** The region under `seqnm`. */
    method NextSeqno(content: bool) returns (seqno: nat)
      requires Valid()
      modifies this`seqn, this`log
      ensures Valid() && log == old(log) + [Issued(content, seqno)]
      ensures seqno == 2 * old(seqn) + (if content then 1 else 0) && seqn == old(seqn) + (if content then 1 else 0)
    {
      hide Numbered, ContentCount, Flatten;
      NumberedNext(start, log, Issued(content, 2 * seqn + (if content then 1 else 0)));
      if content {
        seqno := seqn * 2 + 1;
        seqn := seqn + 1;
      } else {
        seqno := seqn * 2;
      }
      log := log + [Issued(content, seqno)];
    }

    /** `tg_add_msgid`. */
    method AddMsgid(id: nat)
      requires Valid()
      modifies this`msgids, this`added
      ensures Valid() && msgids == old(msgids) + [id] && added == old(added) + [id]
    {
      hide Numbered, ContentCount, Flatten;
      msgids := msgids + [id];
      added := added + [id];
    }

    /** `tg_ack`: one acknowledgement for all pending ids, or nothing. */
    method Ack() returns (ack: seq<Byte>)
      requires Valid()
      modifies this`msgids, this`acked
      ensures Valid() && msgids == []
      ensures if old(msgids) == [] then ack == [] && acked == old(acked)
              else ack == AckBytes(old(msgids)) && acked == old(acked) + [old(msgids)]
    {
      hide Numbered, ContentCount, Flatten, AckBytes;
      if |msgids| < 1 {
        return [];
      }
      ack := AckBytes(msgids);
      FlattenNext(acked, msgids);
      assert Flatten(acked) + msgids + [] == Flatten(acked) + msgids;
      acked := acked + [msgids];
      msgids := [];
    }

    /** `tg_add_todrop`. */
    method AddTodrop(id: nat)
      requires Valid() && !held
      modifies this`todrop, this`dropAdded
      ensures Valid() && todrop == old(todrop) + [id] && dropAdded == old(dropAdded) + [id]
    {
      hide Numbered, ContentCount, Flatten;
      todrop := todrop + [id];
      dropAdded := dropAdded + [id];
    }

    /** `tg_mtp_message`; the clock gives the id. */
    method MtpMessage(payload: seq<Byte>, clock: nat, content: bool) returns (msg: seq<Byte>, ghost seqno: nat)
      requires Valid()
      modifies this`seqn, this`log
      ensures Valid() && msg == MtpBytes(Mtp(clock, seqno, payload))
      ensures seqno == 2 * old(seqn) + (if content then 1 else 0) && seqn == old(seqn) + (if content then 1 else 0)
      ensures log == old(log) + [Issued(content, seqno)]
    {
      hide Numbered, ContentCount, Flatten;
      var number := NextSeqno(content);
      seqno := number;
      msg := Le(clock % TWO_64, 8) + Le(number % TWO_32, 4) + Le(|payload|, 4) + payload;
    }

    /** `tg_to_drop` gets `todropm`. */
    method BeginDrops()
      requires Valid() && !held
      modifies this`held
      ensures Valid() && held && made == 0
    {
      held := true;
    }

    /** One round of the loop of `tg_to_drop`: `seqnm` is taken for the number only. */
    method MakeDrop(clock: nat) returns (msg: seq<Byte>, ghost seqno: nat)
      requires Valid() && held && made < |todrop|
      modifies this`seqn, this`log, this`made
      ensures Valid() && made == old(made) + 1 && log == old(log) + [Issued(true, seqno)]
      ensures seqno == 2 * old(seqn) + 1 && seqn == old(seqn) + 1
      ensures msg == MtpBytes(Mtp(clock, seqno, DropBytes(todrop[old(made)])))
    {
      hide Numbered, ContentCount, Flatten, DropBytes, MtpBytes, Mtp;
      var drop := DropBytes(todrop[made]);
      msg, seqno := MtpMessage(drop, clock, true);
      made := made + 1;
    }

    /** The end of `tg_to_drop`. */
    method EndDrops()
      requires Valid() && held && made == |todrop|
      modifies this`held, this`made, this`todrop, this`dropped
      ensures Valid() && !held && todrop == [] && dropped == old(dropped) + [old(todrop)]
    {
      hide Numbered, ContentCount, Flatten;
      FlattenNext(dropped, todrop);
      assert Flatten(dropped) + todrop + [] == Flatten(dropped) + todrop;
      dropped := dropped + [todrop];
      todrop, held, made := [], false, 0;
    }

    // ---------- other threads ----------

    predicate CanEnter(region: Region, mine: bool)
      reads this
      ensures CanEnter(region, mine) <==> Enabled(State(), region, mine)
    {
      match region
      case AddDrop(_) => !held
      case BeginDrops => !held
      case MakeDrop(_) => held && !mine && made < |todrop|
      case EndDrops => held && !mine && made == |todrop|
      case _ => true
    }

    /** One region of some other thread. */
    method Enter(region: Region, mine: bool)
      requires Valid() && CanEnter(region, mine)
      modifies this`seqn, this`log, this`msgids, this`added, this`acked,
        this`todrop, this`dropAdded, this`dropped, this`held, this`made
      ensures Valid() && old(log) <= log && old(acked) <= acked && old(dropped) <= dropped
      ensures added == old(added) + (if region.AddId? then [region.id] else [])
      ensures dropAdded == old(dropAdded) + (if region.AddDrop? then [region.id] else [])
      ensures State() == After(old(State()), region)
      ensures old(held) && mine ==> held && made == old(made) && todrop == old(todrop) && dropped == old(dropped)
      ensures old(held) && mine ==> dropAdded == old(dropAdded)
    {
      hide Numbered, ContentCount, Flatten, AckBytes, DropBytes, MtpBytes, Mtp;
      match region {
        case TakeNumber(content) =>
          var seqno := NextSeqno(content);
        case AddId(id) => AddMsgid(id);
        case TakeAcks =>
          var ack := Ack();
        case AddDrop(id) => AddTodrop(id);
        case BeginDrops => BeginDrops();
        case MakeDrop(clock) =>
          var msg, seqno := MakeDrop(clock);
        case EndDrops => EndDrops();
      }
    }

    /**
     Any interleaving of regions of other threads. Content messages are numbered 2s+1, 2s+3, ... in the order
     they were made, every id added is in exactly one acknowledgement or still pending, in order, and likewise
     for drops.
     */
    method Interleaving(regions: seq<Region>, mine: bool)
      requires Valid()
      modifies this`seqn, this`log, this`msgids, this`added, this`acked,
        this`todrop, this`dropAdded, this`dropped, this`held, this`made
      ensures Valid() && old(log) <= log && old(acked) <= acked && old(dropped) <= dropped
      ensures added == old(added) + IdsAdded(regions) && old(dropAdded) <= dropAdded
      ensures State() == Interleaved(old(State()), regions, mine)
      ensures regions == [] ==> todrop == old(todrop) && held == old(held)
      ensures old(held) && mine ==> held && made == old(made) && todrop == old(todrop) && dropped == old(dropped)
      ensures old(held) && mine ==> dropAdded == old(dropAdded)
      ensures forall i :: 0 <= i < |ContentNumbers(log)| ==> ContentNumbers(log)[i] == 2 * (start + i) + 1
      ensures Flatten(acked) + msgids == added && Flatten(dropped) + todrop == dropAdded
    {
      hide *;
      var i := 0;
      ghost var ids, before := added, State();
      NoIdsYet(regions, ids);
      NothingInterleaved(before, regions, mine);
      while i < |regions|
        invariant i <= |regions| && Valid()
        invariant old(log) <= log && old(acked) <= acked && old(dropped) <= dropped && old(dropAdded) <= dropAdded
        invariant added == ids + IdsAdded(regions[..i])
        invariant State() == Interleaved(before, regions[..i], mine)
        invariant regions == [] ==> todrop == old(todrop) && held == old(held)
        invariant old(held) && mine ==> dropAdded == old(dropAdded)
        invariant old(held) && mine ==> held && made == old(made) && todrop == old(todrop) && dropped == old(dropped)
      {
        IdsAddedNext(regions, i);
        InterleavedNext(before, regions, i, mine);
        IdsAlwaysEnter(regions[i], mine);
        if CanEnter(regions[i], mine) {
          Enter(regions[i], mine);
        }
        i := i + 1;
      }
      assert regions[..i] == regions;
      Conserved();
    }

    lemma IdsAlwaysEnter(region: Region, mine: bool)
      ensures region.AddId? ==> CanEnter(region, mine)
    {
    }

    lemma Conserved()
      requires Valid()
      ensures added == Flatten(acked) + msgids && dropAdded == Flatten(dropped) + todrop
      ensures Numbered(start, log) && |salt| == 8 && |ssid| == 8 && made <= |todrop| && (!held ==> made == 0)
      ensures forall i :: 0 <= i < |ContentNumbers(log)| ==> ContentNumbers(log)[i] == 2 * (start + i) + 1
    {
      ContentNumbersAreOdd(start, log);
      hide Flatten, Numbered, ContentCount, ContentNumbers;
    }

    /** Waiting for `todropm`: the thread that holds it finishes. */
    method WaitForDrops(clock: nat -> nat)
      requires Valid()
      modifies this`seqn, this`log, this`todrop, this`dropped, this`held, this`made
      ensures Valid() && !held && old(log) <= log
      ensures todrop == if old(held) then [] else old(todrop)
      ensures dropped == if old(held) then old(dropped) + [old(todrop)] else old(dropped)
    {
      hide *;
      Conserved();
      while held
        invariant Valid() && old(log) <= log && made <= |todrop|
        invariant held ==> old(held) && todrop == old(todrop) && dropped == old(dropped)
        invariant !held && old(held) ==> todrop == [] && dropped == old(dropped) + [old(todrop)]
        invariant !held && !old(held) ==> todrop == old(todrop) && dropped == old(dropped)
        decreases held, |todrop| - made
      {
        if made < |todrop| {
          var msg, seqno := MakeDrop(clock(made));
        } else {
          EndDrops();
        }
        Conserved();
      }
    }

    // ---------- whole calls, with other threads between their regions ----------

    /** One round of the loop of `tg_to_drop`, after other threads had their turn. */
    method DropAmong(regions: seq<Region>, clock: nat, ghost from: nat, ghost at: seq<nat>, ghost taken: seq<Issued>)
      returns (msg: seq<Byte>, ghost n: nat, ghost at': seq<nat>, ghost taken': seq<Issued>)
      requires Valid() && held && made < |todrop| && Took(log, from, at, taken) && from <= |log|
      modifies this`seqn, this`log, this`msgids, this`added, this`acked,
        this`todrop, this`dropAdded, this`dropped, this`held, this`made
      ensures Valid() && Grown(old(State()), State()) && from <= |log|
      ensures held && made == old(made) + 1 && todrop == old(todrop)
      ensures dropped == old(dropped) && dropAdded == old(dropAdded)
      ensures msg == MtpBytes(Mtp(clock, n, DropBytes(todrop[old(made)])))
      ensures taken' == taken + [Issued(true, n)] && Took(log, from, at', taken')
    {
      hide Valid, Took, Numbered, ContentCount, ContentNumbers, Flatten, Interleaved, After, Enabled, IdsAdded;
      hide MtpBytes, Mtp, DropBytes;
      ghost var earlier := log;
      Interleaving(regions, true);
      ghost var later, s := log, State();
      assert Grown(old(State()), s);
      msg, n := MakeDrop(clock);
      TookMore(earlier, from, at, taken, later, Issued(true, n));
      taken', at' := taken + [Issued(true, n)], at + [|later|];
      assert Grown(s, State());
      hide Grown, State;
      GrownTrans(old(State()), s, State());
    }

    /**
     `tg_to_drop`: one content message for each answer to drop that is pending when the mutex is free, in
     order; none is pending if another thread held it, as that one made them all. `others(i)` is what other
     threads do before message i is numbered. The numbers taken stand in the log in order, wherever those of
     others stand.
     */
    method ToDrop(clock: nat -> nat, wait: nat -> nat, others: nat -> seq<Region>)
      returns (buf: seq<Byte>, len: nat, ghost drops: seq<nat>, ghost times: seq<nat>, ghost taken: seq<Issued>,
               ghost at: seq<nat>)
      requires Valid()
      modifies this`seqn, this`log, this`msgids, this`added, this`acked,
        this`todrop, this`dropAdded, this`dropped, this`held, this`made
      ensures Valid() && !held && todrop == [] && Grown(old(State()), State())
      ensures len == |drops| == |times| == |taken| && forall i :: 0 <= i < len ==> taken[i].content
      ensures buf == Concat(DropMessages(drops, times, Numbers(taken)))
      ensures Took(log, |old(log)|, at, taken)
      ensures drops == if old(held) then [] else old(todrop)
      ensures dropped == (if old(held) then old(dropped) + [old(todrop)] else old(dropped)) + [drops]
      ensures dropAdded == old(dropAdded) == Flatten(dropped)
    {
      hide *;
      ghost var s0, from := State(), |log|;
      StateIs();
      WaitForDrops(wait);
      BeginDrops();
      Conserved();
      ghost var s1, before := State(), dropped;
      StateIs();
      LaterIsGrown(s0, s1);
      drops := todrop;
      buf, times, taken, at := [], [], [], [];
      NothingTaken(log, from, drops);
      while made < |todrop|
        invariant Valid() && held && todrop == drops && made <= |drops| && from <= |log|
        invariant made == |times| == |taken| && forall i :: 0 <= i < made ==> taken[i].content
        invariant buf == Concat(DropMessages(drops[..made], times, Numbers(taken)))
        invariant Took(log, from, at, taken) && Grown(s0, State())
        invariant dropped == before && dropAdded == old(dropAdded)
      {
        ghost var t, s, already := clock(made), State(), taken;
        ghost var n;
        var msg;
        msg, n, at, taken := DropAmong(others(made), clock(made), from, at, taken);
        GrownTrans(s0, s, State());
        DropMessagesNext(drops, times, already, t, Issued(true, n));
        buf := buf + msg;
        times := times + [t];
        Conserved();
      }
      len := made;
      assert drops[..made] == drops;
      ghost var s2 := State();
      StateIs();
      EndDrops();
      StateIs();
      LaterIsGrown(s2, State());
      GrownTrans(s0, s2, State());
      Conserved();
      assert Flatten(dropped) + [] == Flatten(dropped);
    }

    /** Other threads have their turn; of what they do this much matters to a thread that does not hold `todropm`. */
    method LetOthers(regions: seq<Region>, ghost from: nat, ghost at: seq<nat>, ghost taken: seq<Issued>)
      requires Valid() && Took(log, from, at, taken) && from <= |log|
      modifies this`seqn, this`log, this`msgids, this`added, this`acked,
        this`todrop, this`dropAdded, this`dropped, this`held, this`made
      ensures Valid() && Grown(old(State()), State()) && Took(log, from, at, taken) && from <= |log|
      ensures regions == [] ==> todrop == old(todrop) && held == old(held)
    {
      hide Valid, Took, Numbered, ContentCount, ContentNumbers, Flatten, Interleaved, After, Enabled, IdsAdded;
      ghost var earlier := log;
      Interleaving(regions, false);
      TookStill(earlier, from, at, taken, log);
    }

    /** A number taken after other threads had their turn. */
    method NumberAmong(regions: seq<Region>, content: bool, ghost from: nat, ghost at: seq<nat>,
                       ghost taken: seq<Issued>)
      returns (seqno: nat, ghost at': seq<nat>, ghost taken': seq<Issued>)
      requires Valid() && Took(log, from, at, taken) && from <= |log|
      modifies this`seqn, this`log, this`msgids, this`added, this`acked,
        this`todrop, this`dropAdded, this`dropped, this`held, this`made
      ensures Valid() && Grown(old(State()), State())
      ensures taken' == taken + [Issued(content, seqno)] && Took(log, from, at', taken')
    {
      hide Valid, Took, Numbered, ContentCount, Flatten;
      LetOthers(regions, from, at, taken);
      ghost var later, s := log, State();
      seqno := NextSeqno(content);
      TookMore(later, from, at, taken, later, Issued(content, seqno));
      taken', at' := taken + [Issued(content, seqno)], at + [|later|];
      assert Grown(s, State());
      hide Grown, State;
      GrownTrans(old(State()), s, State());
    }

    /** A message made after other threads had their turn. */
    method MessageAmong(regions: seq<Region>, payload: seq<Byte>, clock: nat, content: bool, ghost from: nat,
                        ghost at: seq<nat>, ghost taken: seq<Issued>)
      returns (msg: seq<Byte>, ghost n: nat, ghost at': seq<nat>, ghost taken': seq<Issued>)
      requires Valid() && Took(log, from, at, taken) && from <= |log|
      modifies this`seqn, this`log, this`msgids, this`added, this`acked,
        this`todrop, this`dropAdded, this`dropped, this`held, this`made
      ensures Valid() && Grown(old(State()), State()) && from <= |log|
      ensures regions == [] ==> todrop == old(todrop) && held == old(held)
      ensures msg == MtpBytes(Mtp(clock, n, payload))
      ensures taken' == taken + [Issued(content, n)] && Took(log, from, at', taken')
    {
      hide Valid, Took, Numbered, ContentCount, Flatten, MtpBytes, Mtp;
      LetOthers(regions, from, at, taken);
      ghost var later, s := log, State();
      msg, n := MtpMessage(payload, clock, content);
      TookMore(later, from, at, taken, later, Issued(content, n));
      taken', at' := taken + [Issued(content, n)], at + [|later|];
      assert Grown(s, State());
      hide Grown, State;
      GrownTrans(old(State()), s, State());
    }

    /** The drop messages, made after other threads had their turn. */
    method DropsAmong(regions: seq<Region>, clock: nat -> nat, wait: nat -> nat, between: nat -> seq<Region>,
                      ghost from: nat, ghost at: seq<nat>, ghost taken: seq<Issued>)
      returns (buf: seq<Byte>, len: nat, ghost drops: seq<nat>, ghost times: seq<nat>, ghost dropTaken: seq<Issued>,
               ghost at': seq<nat>)
      requires Valid() && Took(log, from, at, taken) && from <= |log|
      modifies this`seqn, this`log, this`msgids, this`added, this`acked,
        this`todrop, this`dropAdded, this`dropped, this`held, this`made
      ensures Valid() && Grown(old(State()), State()) && dropAdded == Flatten(dropped) && drops in dropped
      ensures len == |drops| == |times| == |dropTaken| && forall i :: 0 <= i < len ==> dropTaken[i].content
      ensures buf == Concat(DropMessages(drops, times, Numbers(dropTaken)))
      ensures Took(log, from, at', taken + dropTaken)
      ensures regions == [] && !old(held) ==> drops == old(todrop)
    {
      hide Valid, Took, Numbered, ContentCount, Flatten, Concat, DropMessages;
      LetOthers(regions, from, at, taken);
      ghost var later, s, dropAt := log, State(), [];
      buf, len, drops, times, dropTaken, dropAt := ToDrop(clock, wait, between);
      TookJoin(later, later, log, from, at, taken, dropAt, dropTaken);
      at' := at + dropAt;
      assert Grown(s, State()) && drops in dropped;
      hide Grown, State;
      GrownTrans(old(State()), s, State());
    }

    /** The container of `tg_header`: query, acknowledgement and drops, each numbered in a region of its own. */
    method Pack(b: seq<Byte>, ack: seq<Byte>, ghost acks: seq<nat>, queryTime: nat, ackTime: nat, clock: nat -> nat,
                others: Others)
      returns (c: seq<Byte>, ghost drops: seq<nat>, ghost times: seq<nat>, ghost taken: seq<Issued>, ghost at: seq<nat>)
      requires Valid() && ack == AckBytes(acks)
      modifies this`seqn, this`log, this`msgids, this`added, this`acked,
        this`todrop, this`dropAdded, this`dropped, this`held, this`made
      ensures Valid() && Grown(old(State()), State()) && dropAdded == Flatten(dropped) && drops in dropped
      ensures |times| == |drops| && Bundled(taken, |drops|) && Took(log, |old(log)|, at, taken)
      ensures c == ContainerBytes(Bundle(b, acks, drops, queryTime, ackTime, times, Numbers(taken)))
      ensures others.Idle() && !old(held) ==> drops == old(todrop)
    {
      assert others.Idle() ==> others.beforeQuery == [] && others.beforeAck == [] && others.beforeDrops == [];
      hide *;
      ghost var from, s0 := |log|, State();
      NoneTaken(log, from);
      var query, acknowledgement, todropBytes, len;
      ghost var n0, n1, dropTaken;
      query, n0, at, taken := MessageAmong(others.beforeQuery, b, queryTime, true, from, [], []);
      ghost var s1 := State();
      acknowledgement, n1, at, taken := MessageAmong(others.beforeAck, ack, ackTime, false, from, at, taken);
      ghost var s2, pair := State(), taken;
      todropBytes, len, drops, times, dropTaken, at :=
        DropsAmong(others.beforeDrops, clock, others.wait, others.betweenDrops, from, at, taken);
      taken := taken + dropTaken;
      GrownTrans(s0, s1, s2);
      GrownTrans(s0, s2, State());
      c := Container(len, query, acknowledgement, todropBytes, b, acks, drops, queryTime, ackTime, times, n0, n1,
                     dropTaken);
      assert pair == [Issued(true, n0)] + [Issued(false, n1)];
    }

    /** The bytes of the container. */
    method Container(len: nat, query: seq<Byte>, acknowledgement: seq<Byte>, todropBytes: seq<Byte>,
                     ghost b: seq<Byte>, ghost acks: seq<nat>, ghost drops: seq<nat>, ghost queryTime: nat,
                     ghost ackTime: nat, ghost times: seq<nat>, ghost n0: nat, ghost n1: nat,
                     ghost dropTaken: seq<Issued>)
      returns (c: seq<Byte>)
      requires len == |drops| == |times| == |dropTaken|
      requires query == MtpBytes(Mtp(queryTime, n0, b)) && acknowledgement == MtpBytes(Mtp(ackTime, n1, AckBytes(acks)))
      requires todropBytes == Concat(DropMessages(drops, times, Numbers(dropTaken)))
      requires forall i :: 0 <= i < |dropTaken| ==> dropTaken[i].content
      ensures var taken := [Issued(true, n0)] + [Issued(false, n1)] + dropTaken;
              && Bundled(taken, |drops|)
              && c == ContainerBytes(Bundle(b, acks, drops, queryTime, ackTime, times, Numbers(taken)))
    {
      hide *;
      c := Le(ID_CONTAINER, 4);
      c := c + Le(2 + len, 4);
      c := c + query;
      c := c + acknowledgement;
      c := c + todropBytes;
      ContainerOf(Mtp(queryTime, n0, b), Mtp(ackTime, n1, AckBytes(acks)),
                  DropMessages(drops, times, Numbers(dropTaken)));
      BundleOf(b, acks, drops, queryTime, ackTime, times, n0, n1, dropTaken);
    }

    /**
     The first part of `tg_header`: the query alone, or the container if ids are pending. Every answer to drop
     that was pending before is dropped then, and in this container if the others leave it alone.
     */
    method Body(b: seq<Byte>, content: bool, queryTime: nat, ackTime: nat, clock: nat -> nat, others: Others)
      returns (data: seq<Byte>, related: bool, msgid: nat, ghost drops: seq<nat>, ghost times: seq<nat>,
               ghost taken: seq<Issued>, ghost at: seq<nat>)
      requires Valid()
      modifies this`seqn, this`log, this`msgids, this`added, this`acked,
        this`todrop, this`dropAdded, this`dropped, this`held, this`made
      ensures Valid() && Grown(old(State()), State()) && |old(log)| <= |log| && Took(log, |old(log)|, at, taken)
      ensures old(msgids) == [] ==> data == b && related == content && msgid == 0 && taken == []
      ensures old(msgids) != [] ==>
                !related && msgid == queryTime % TWO_64 && |times| == |drops| && Bundled(taken, |drops|)
      ensures old(msgids) != [] ==>
                data == ContainerBytes(Bundle(b, old(msgids), drops, queryTime, ackTime, times, Numbers(taken)))
      ensures old(msgids) != [] ==>
                && old(acked) + [old(msgids)] <= acked
                && old(dropAdded) <= Flatten(dropped) && drops in dropped
                && (others.Idle() && !old(held) ==> drops == old(todrop))
    {
      assert TWO_64 > 0;
      hide *;
      data, related, msgid := b, content, 0;
      ghost var acks, s0 := msgids, State();
      StateIs();
      AckNotEmpty(acks);
      NoneTaken(log, |log|);
      taken, at, drops, times := [], [], [], [];
      var ack := Ack();
      ghost var s1 := State();
      StateIs();
      LaterIsGrown(s0, s1);
      if |ack| > 0 {
        related := false;
        data, drops, times, taken, at := Pack(b, ack, acks, queryTime, ackTime, clock, others);
        msgid := queryTime % TWO_64;
        StateIs();
        GrownTrans(s0, s1, State());
        GrownParts(s1, State());
      }
    }

    /**
     `tg_header` for encrypted messages. Whatever other threads do meanwhile, the frame carries the query alone,
     or the container if ids were pending; `taken` are the numbers of its messages, the outermost last. Nothing
     is lost, and every answer to drop that was pending before is dropped with the ids.
     */
    method Header(b: seq<Byte>, content: bool, queryTime: nat, ackTime: nat, clock: nat -> nat, time: nat,
                  random: seq<Byte>, others: Others)
      returns (s: seq<Byte>, msgid: nat, ghost body: seq<Byte>, ghost drops: seq<nat>, ghost times: seq<nat>,
               ghost taken: seq<Issued>, ghost at: seq<nat>)
      requires Valid() && |random| >= 31
      modifies this`seqn, this`log, this`msgids, this`added, this`acked,
        this`todrop, this`dropAdded, this`dropped, this`held, this`made
      ensures Valid() && Grown(old(State()), State()) && Took(log, |old(log)|, at, taken) && |taken| >= 1
      ensures s == Frame(salt, ssid, time % TWO_64, taken[|taken| - 1].seqno % TWO_32, body,
                         random[..PadLength(|body|)])
      ensures old(msgids) == [] ==>
                body == b && |taken| == 1 && taken[0].content == content && msgid == time % TWO_64
      ensures old(msgids) != [] ==>
                |times| == |drops| && Bundled(taken[..|taken| - 1], |drops|) && !taken[|taken| - 1].content
      ensures old(msgids) != [] ==>
                body == ContainerBytes(Bundle(b, old(msgids), drops, queryTime, ackTime, times,
                                              Numbers(taken[..|taken| - 1])))
      ensures old(msgids) != [] ==>
                msgid == if queryTime % TWO_64 == 0 then time % TWO_64 else queryTime % TWO_64
      ensures old(msgids) != [] ==>
                && old(acked) + [old(msgids)] <= acked
                && old(dropAdded) <= Flatten(dropped) && drops in dropped
                && (others.Idle() && !old(held) ==> drops == old(todrop))
    {
      assert TWO_64 > 0 && TWO_32 > 0;
      hide *;
      ghost var s0 := State();
      var data, related;
      data, related, msgid, drops, times, taken, at := Body(b, content, queryTime, ackTime, clock, others);
      if msgid == 0 {
        msgid := time % TWO_64;
      }
      StateIs();
      ghost var s1, sent, inner := State(), dropped, taken;
      var seqno;
      seqno, at, taken := NumberAmong(others.beforeOuter, related, |old(log)|, at, taken);
      StateIs();
      GrownTrans(s0, s1, State());
      GrownParts(s1, State());
      FlattenMonotone(sent, dropped);
      assert taken[..|inner|] == inner;
      body := data;
      PadFills(|data|);
      var pad := random[..PadLength(|data|)];
      FrameIs(salt, ssid, time % TWO_64, seqno % TWO_32, data, pad);
      s := salt + ssid + Le(time % TWO_64, 8) + Le(seqno % TWO_32, 4) + Le(|data|, 4) + data;
      s := s + pad;
    }

    /**
     `tg_deheader` for encrypted messages: stores the salt and queues the id for acknowledgement as soon as each
     is read, so a message that turns out too short has changed them already.
     */
    method Deheader(s: seq<Byte>) returns (ok: bool, d: seq<Byte>)
      requires Valid()
      modifies this`salt, this`msgids, this`added
      ensures Valid()
      ensures s == [] ==> ok && d == []
      ensures s != [] ==> (ok <==> Open(s).Got?) && (ok ==> d == Open(s).value.body)
      ensures salt == if |s| >= 8 then s[..8] else old(salt)
      ensures var ids := if |s| >= 24 then [FromLe(s[16..24])] else [];
              msgids == old(msgids) + ids && added == old(added) + ids
    {
      hide Numbered, ContentCount, Flatten;
      if |s| == 0 {
        return true, s;
      }
      var b := new Reader(s);
      var saltWord, ssidWord, msgId, seqno, len;
      ok, saltWord := b.Word(8);
      if !ok { return false, []; }
      LeOfFromLe(s[..8]);
      salt := Le(saltWord, 8);
      ok, ssidWord := b.Word(8);
      if !ok { return false, []; }
      ok, msgId := b.Word(8);
      if !ok { return false, []; }
      assert s[8..][8..][..8] == s[16..24];
      AddMsgid(msgId);
      ok, seqno := b.Word(4);
      if !ok { return false, []; }
      ok, len := b.Word(4);
      if !ok { return false, []; }
      ok, d := b.Block(len);
      OpenParts(s);
      if !ok { return false, []; }
    }

    /** `tg_header` before the key exchange: no session, no number, nothing pending goes along. */
    method PlainHeader(b: seq<Byte>, time: nat) returns (s: seq<Byte>)
      ensures s == PlainFrame(time % TWO_64, b)
    {
      hide Le;
      s := Le(0, 8);
      s := s + Le(time % TWO_64, 8);
      s := s + Le(|b|, 4);
      s := s + b;
    }

    /**
     `tg_deheader` before the key exchange: everything behind the header is the message. The declared length is
     only compared with what is there, for the log; a message for a key is given back as it is.
     */
    method PlainDeheader(s: seq<Byte>) returns (ok: bool, d: seq<Byte>, mismatch: bool)
      ensures ok <==> OpenPlain(s).Got?
      ensures ok ==> d == OpenPlain(s).value
      ensures |s| >= 20 && FromLe(s[..8]) == 0 ==> ok && d == s[20..] && (mismatch <==> FromLe(s[16..20]) != |s| - 20)
      ensures s == [] || (|s| >= 8 && FromLe(s[..8]) != 0) ==> ok && d == s && !mismatch
    {
      hide FromLe;
      mismatch := false;
      if |s| == 0 {
        return true, s, false;
      }
      if |s| < 8 {
        return false, [], false;
      }
      if FromLe(s[..8]) != 0 {
        return true, s, false;
      }
      var b := new Reader(s);
      var key, id, len;
      ok, key := b.Word(8);
      ok, id := b.Word(8);
      if !ok { return false, [], false; }
      ok, len := b.Word(4);
      if !ok { return false, [], false; }
      assert s[8..][8..][..4] == s[16..20] && s[8..][8..][4..] == s[20..];
      d := b.data;
      mismatch := len != |d|;
    }
  }

  /** What other threads do in each gap of a call of `tg_header`, and how long the wait for `todropm` takes. */
  datatype Others = Others(beforeQuery: seq<Region>, beforeAck: seq<Region>, beforeDrops: seq<Region>,
                           wait: nat -> nat, betweenDrops: nat -> seq<Region>, beforeOuter: seq<Region>)
  {
    /** The others do nothing before the drops are made. */
    ghost predicate Idle() {
      beforeQuery == [] && beforeAck == [] && beforeDrops == []
    }
  }

  /** The numbers of a query, an acknowledgement and `drops` drop messages. */
  ghost predicate Bundled(taken: seq<Issued>, drops: nat) {
    && |taken| == 2 + drops && taken[0].content && !taken[1].content
    && forall i :: 2 <= i < |taken| ==> taken[i].content
  }

  lemma BundleOf(b: seq<Byte>, acks: seq<nat>, drops: seq<nat>, queryTime: nat, ackTime: nat, times: seq<nat>,
                 n0: nat, n1: nat, dropTaken: seq<Issued>)
    requires |times| == |drops| == |dropTaken| && forall i :: 0 <= i < |dropTaken| ==> dropTaken[i].content
    ensures var taken := [Issued(true, n0)] + [Issued(false, n1)] + dropTaken;
            && Bundled(taken, |drops|)
            && Bundle(b, acks, drops, queryTime, ackTime, times, Numbers(taken))
               == [Mtp(queryTime, n0, b), Mtp(ackTime, n1, AckBytes(acks))]
                  + DropMessages(drops, times, Numbers(dropTaken))
  {
    hide Mtp, AckBytes, DropMessages;
    var taken := [Issued(true, n0)] + [Issued(false, n1)] + dropTaken;
    assert Numbers(taken)[2..] == Numbers(dropTaken);
  }

  lemma FrameIs(salt: seq<Byte>, ssid: seq<Byte>, id: nat, seqno: nat, body: seq<Byte>, pad: seq<Byte>)
    ensures Frame(salt, ssid, id, seqno, body, pad)
            == salt + ssid + Le(id, 8) + Le(seqno, 4) + Le(|body|, 4) + body + pad
  {
    hide Le;
  }

  lemma NoneTaken(log: seq<Issued>, from: nat)
    ensures Took(log, from, [], [])
  {
  }

  lemma TookJoin(log: seq<Issued>, middle: seq<Issued>, last: seq<Issued>, from: nat, at: seq<nat>, taken: seq<Issued>,
                 at': seq<nat>, taken': seq<Issued>)
    requires log <= middle <= last && from <= |log|
    requires Took(log, from, at, taken) && Took(last, |middle|, at', taken')
    ensures Took(last, from, at + at', taken + taken')
  {
    TookStill(log, from, at, taken, last);
  }

  lemma OpenParts(s: seq<Byte>)
    requires |s| >= 32
    ensures s[8..][8..][8..][4..][..4] == s[28..32] && s[8..][8..][8..][4..][4..] == s[32..]
    ensures s[8..][..8] == s[8..16]
    ensures forall n :: 0 <= n <= |s| - 32 ==> s[32..][..n] == s[32..32 + n]
  {
  }

  lemma NothingTaken(log: seq<Issued>, from: nat, drops: seq<nat>)
    ensures Took(log, from, [], []) && Concat(DropMessages(drops[..0], [], Numbers([]))) == []
  {
  }

  lemma DropMessagesNext(drops: seq<nat>, times: seq<nat>, taken: seq<Issued>, t: nat, m: Issued)
    requires |times| == |taken| < |drops|
    ensures var k := |times|;
            && |Numbers(taken + [m])| == k + 1
            && Concat(DropMessages(drops[..k + 1], times + [t], Numbers(taken + [m])))
               == Concat(DropMessages(drops[..k], times, Numbers(taken)))
                  + MtpBytes(Mtp(t, m.seqno, DropBytes(drops[k])))
  {
    hide Mtp, DropBytes, MtpBytes, Concat;
    var k := |times|;
    var ms := DropMessages(drops[..k + 1], times + [t], Numbers(taken + [m]));
    assert ms[..k] == DropMessages(drops[..k], times, Numbers(taken));
    ConcatNext(ms, k);
    assert ms[..k + 1] == ms;
  }
}
