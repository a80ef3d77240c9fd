/** Delivery of a range of blocks to a client (common/deliver/deliver.go), and the session access
    control that guards every block (common/deliver/acl.go). */
module Deliver {
  import opened Basics

  const U64 := 0x1_0000_0000_0000_0000

  /** What one evaluation meets: whether the identity has expired, the configuration sequence read,
      and what the policy checker would answer. */
  datatype Check = Check(expired: bool, sequence: nat, passes: bool)

  // ---- session access control

  datatype Session = Session(lastConfigSequence: nat, usedAtLeastOnce: bool)

  function Evaluated(s: Session, c: Check): (bool, Session)
  {
    if c.expired then (false, s)
    else
      var newer := c.sequence > s.lastConfigSequence;
      var needed := newer || !s.usedAtLeastOnce;
      var last := if newer then c.sequence else s.lastConfigSequence;
      (needed ==> c.passes, Session(last, s.usedAtLeastOnce || needed))
  }

  /** The policy passed at a reading of the newest sequence among those read, the first such reading. */
  ghost predicate Covered(seen: seq<Check>)
  {
    && (forall l :: 0 <= l < |seen| ==> !seen[l].expired)
    && exists j :: CoversAt(seen, j)
  }

  ghost predicate CoversAt(seen: seq<Check>, j: int)
  {
    && 0 <= j < |seen|
    && seen[j].passes
    && (forall l :: 0 <= l < |seen| ==> seen[l].sequence <= seen[j].sequence)
    && (forall l :: 0 <= l < j ==> seen[l].sequence < seen[j].sequence)
  }

  lemma StaysCovered(seen: seq<Check>, c: Check, last: nat)
    requires Covered(seen) && !c.expired && c.sequence <= last
    requires exists l :: 0 <= l < |seen| && seen[l].sequence == last
    ensures Covered(seen + [c])
    ensures exists l :: 0 <= l < |seen + [c]| && (seen + [c])[l].sequence == last
  {
    var j :| CoversAt(seen, j);
    var l :| 0 <= l < |seen| && seen[l].sequence == last;
    assert (seen + [c])[l].sequence == last;
    assert CoversAt(seen + [c], j);
  }

  lemma NowCovered(seen: seq<Check>, c: Check)
    requires forall l :: 0 <= l < |seen| ==> !seen[l].expired && seen[l].sequence < c.sequence
    requires !c.expired && c.passes
    ensures Covered(seen + [c]) && (seen + [c])[|seen|] == c
  {
    assert CoversAt(seen + [c], |seen|);
  }

  class SessionAccessControl {
    var lastConfigSequence: nat
    var usedAtLeastOnce: bool
    ghost var seen: seq<Check>

    constructor ()
      ensures Valid() && seen == []
    {
      lastConfigSequence, usedAtLeastOnce, seen := 0, false, [];
    }

    ghost function Value(): Session
      reads this
    {
      Session(lastConfigSequence, usedAtLeastOnce)
    }

    /** As long as no evaluation refused: the last sequence is the newest one read, and the policy
        passed under it. */
    ghost predicate Valid()
      reads this
    {
      if usedAtLeastOnce then
        && Covered(seen)
        && (forall l :: 0 <= l < |seen| ==> seen[l].sequence <= lastConfigSequence)
        && (exists l :: 0 <= l < |seen| && seen[l].sequence == lastConfigSequence)
      else seen == [] && lastConfigSequence == 0
    }

    method Evaluate(c: Check) returns (ok: bool)
      modifies this
      ensures (ok, Value()) == Evaluated(old(Value()), c)
      ensures seen == old(seen) + [c]
      ensures old(Valid()) && ok ==> Valid() && Covered(seen)
    {
      ghost var before, valid := seen, Valid();
      seen := seen + [c];
      if c.expired {
        return false;
      }
      var needed := !usedAtLeastOnce;
      if c.sequence > lastConfigSequence {
        lastConfigSequence := c.sequence;
        needed := true;
      }
      if !needed {
        if valid {
          StaysCovered(before, c, lastConfigSequence);
        }
        return true;
      }
      usedAtLeastOnce := true;
      if valid && c.passes {
        NowCovered(before, c);
      }
      return c.passes;
    }
  }

  /** An evaluation that refused must not be followed by another: at the same sequence the next one
      accepts without asking the policy. */
  lemma RefusedThenAccepted(s: Session, c: Check, d: Check)
    requires !c.expired && !d.expired && !Evaluated(s, c).0
    ensures d.sequence <= Evaluated(s, c).1.lastConfigSequence <==>
            Evaluated(Evaluated(s, c).1, d.(passes := false)).0
  {
  }

  // ---- the delivery loop

  /** Unset is a seek position without a type. */
  datatype Position = Oldest | Newest | Specified(number: nat) | Unset

  datatype SeekInfo = SeekInfo(start: Option<Position>, stop: Option<Position>, failIfNotReady: bool)

  /** What a wait for the next block ends with. */
  datatype Arrival = Cancelled | ConsenterError | Next(status: Status, number: nat)

  /** What one turn of the loop meets: the height read, the arrival, the evaluation, the sending. */
  datatype Turn = Turn(height: nat, arrival: Arrival, check: Check, sendOk: bool)

  datatype Status = SUCCESS | BAD_REQUEST | FORBIDDEN | NOT_FOUND | SERVICE_UNAVAILABLE | INTERNAL_SERVER_ERROR

  /** The number of the last block, as an unsigned 64-bit integer. */
  function LastOf(height: nat): nat
  {
    (height + U64 - 1) % U64
  }

  /** Where to stop, given the number the cursor starts at and the height read. */
  function StopOf(seek: SeekInfo, first: nat, height: nat): nat
    requires seek.start.Some? && seek.stop.Some?
  {
    match seek.stop.value
    case Oldest => first
    case Newest => if seek.start == seek.stop then first else LastOf(height)
    case Specified(n) => n
    case Unset => 0
  }

  function Checks(turns: seq<Turn>): (r: seq<Check>)
    ensures |r| == |turns|
  {
    seq(|turns|, i requires 0 <= i < |turns| => turns[i].check)
  }

  /** The number the loop expects after i blocks. */
  function NumberAt(first: nat, i: nat): nat
  {
    (first + i) % U64
  }

  /** Sending n in turn i was right: it had arrived, the evaluations up to then cover the newest
      sequence read, and if asked for, the block was not beyond the height read. */
  ghost predicate SentAt(seek: SeekInfo, first: nat, check: Check, turns: seq<Turn>, i: nat, n: nat)
    requires i < |turns|
  {
    && turns[i].arrival == Next(SUCCESS, n)
    && Covered([check] + Checks(turns[..i + 1]))
    && (seek.failIfNotReady ==> NumberAt(first, i) <= LastOf(turns[i].height))
  }

  ghost predicate SentRight(seek: SeekInfo, first: nat, check: Check, turns: seq<Turn>, sent: seq<nat>)
  {
    |sent| <= |turns| && forall i :: 0 <= i < |sent| ==> SentAt(seek, first, check, turns, i, sent[i])
  }

  /** The cursor gives the blocks from `first` on, one after another. */
  ghost predicate Consecutive(first: nat, turns: seq<Turn>)
  {
    forall i :: 0 <= i < |turns| && turns[i].arrival.Next? && turns[i].arrival.status == SUCCESS ==>
      turns[i].arrival.number == first + i
  }

  function Range(first: nat, stop: nat): (r: seq<nat>)
    requires first <= stop
    ensures |r| == stop - first + 1 && forall i :: 0 <= i < |r| ==> r[i] == first + i
  {
    seq(stop - first + 1, i => first + i)
  }

  lemma SentRange(seek: SeekInfo, first: nat, check: Check, turns: seq<Turn>, sent: seq<nat>, stop: nat)
    requires SentRight(seek, first, check, turns, sent) && Consecutive(first, turns)
    requires |sent| > 0 && sent[|sent| - 1] == stop
    ensures first <= stop && sent == Range(first, stop)
  {
    hide Covered;
    forall i | 0 <= i < |sent| ensures sent[i] == first + i {
      assert SentAt(seek, first, check, turns, i, sent[i]);
    }
  }

  lemma NumberNext(first: nat, i: nat)
    ensures NumberAt(first, i + 1) == (NumberAt(first, i) + 1) % U64
  {
  }

  lemma ChecksNext(check: Check, turns: seq<Turn>, i: nat)
    requires i < |turns|
    ensures [check] + Checks(turns[..i + 1]) == [check] + Checks(turns[..i]) + [turns[i].check]
  {
    assert Checks(turns[..i + 1]) == Checks(turns[..i]) + [turns[i].check];
  }

  /** None is a delivery still under way when the turns are over. When the delivery succeeds over a
      consecutive cursor, the blocks sent are exactly those from start to stop. */
  method DeliverBlocks(seek: SeekInfo, first: nat, height: nat, check: Check, turns: seq<Turn>)
    returns (status: Option<Status>, sent: seq<nat>)
    requires first < U64
    ensures SentRight(seek, first, check, turns, sent)
    ensures status == Some(SUCCESS) ==>
              && seek.start.Some? && seek.stop.Some?
              && |sent| > 0 && sent[|sent| - 1] == StopOf(seek, first, height)
    ensures status == Some(SUCCESS) && Consecutive(first, turns) ==>
              && first <= StopOf(seek, first, height)
              && sent == Range(first, StopOf(seek, first, height))
  {
    hide Covered, SentRight, Consecutive, Range, StopOf, Evaluated;
    sent := [];
    NothingSent(seek, first, check, turns);
    var session := new SessionAccessControl();
    var ok := session.Evaluate(check);
    if !ok {
      return Some(FORBIDDEN), sent;
    }
    if seek.start.None? || seek.stop.None? {
      return Some(BAD_REQUEST), sent;
    }
    var stop := StopOf(seek, first, height);
    if seek.stop.value.Specified? && stop < first {
      return Some(BAD_REQUEST), sent;
    }
    status, sent := SendBlocks(seek, first, stop, check, turns, session);
    if status == Some(SUCCESS) && Consecutive(first, turns) {
      SentRange(seek, first, check, turns, sent, stop);
    }
  }

  /** The loop, after the first evaluation. */
  method SendBlocks(seek: SeekInfo, first: nat, stop: nat, check: Check, turns: seq<Turn>, session: SessionAccessControl)
    returns (status: Option<Status>, sent: seq<nat>)
    requires first < U64 && session.Valid() && session.seen == [check]
    modifies session
    ensures SentRight(seek, first, check, turns, sent)
    ensures status == Some(SUCCESS) ==> |sent| > 0 && sent[|sent| - 1] == stop
  {
    hide Covered, SentAt, NumberAt, LastOf, Checks, Evaluated;
    sent := [];
    NothingSent(seek, first, check, turns);
    var number, i := first, 0;
    while i < |turns|
      invariant 0 <= i <= |turns| && |sent| == i && number == NumberAt(first, i)
      invariant session.Valid() && session.seen == [check] + Checks(turns[..i])
      invariant SentRight(seek, first, check, turns, sent)
    {
      var turn := turns[i];
      if seek.failIfNotReady && number > LastOf(turn.height) {
        return Some(NOT_FOUND), sent;
      }
      match turn.arrival {
        case Cancelled => return Some(INTERNAL_SERVER_ERROR), sent;
        case ConsenterError => return Some(SERVICE_UNAVAILABLE), sent;
        case Next(read, n) =>
          if read != SUCCESS {
            return Some(read), sent;
          }
          NumberNext(first, i);
          number := (number + 1) % U64;
          ChecksNext(check, turns, i);
          var ok := session.Evaluate(turn.check);
          if !ok {
            return Some(FORBIDDEN), sent;
          }
          if !turn.sendOk {
            return Some(INTERNAL_SERVER_ERROR), sent;
          }
          SentNow(seek, first, check, turns, i, n);
          sent := sent + [n];
          if stop == n {
            return Some(SUCCESS), sent;
          }
      }
      i := i + 1;
    }
    return None, sent;
  }

  lemma NothingSent(seek: SeekInfo, first: nat, check: Check, turns: seq<Turn>)
    requires first < U64
    ensures NumberAt(first, 0) == first && [check] + Checks(turns[..0]) == [check]
    ensures SentRight(seek, first, check, turns, [])
  {
  }

  lemma SentNow(seek: SeekInfo, first: nat, check: Check, turns: seq<Turn>, i: nat, n: nat)
    requires i < |turns| && turns[i].arrival == Next(SUCCESS, n) && Covered([check] + Checks(turns[..i + 1]))
    requires seek.failIfNotReady ==> NumberAt(first, i) <= LastOf(turns[i].height)
    ensures SentAt(seek, first, check, turns, i, n)
  {
  }
}
