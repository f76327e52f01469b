/**
 Joints and the chains of mimic joints. A mimic joint has no state of its own: it follows another joint,
 which may be a mimic joint too, through a multiplier and an offset.
 */
module Joints {
  import opened Arithmetic
  import opened TransformAlgebra
  import opened Trails

  datatype JointType = Fixed | Continuous | Revolute | Prismatic

  datatype JointMimic = JointMimic(name: string, multiplier: real, offset: real)

  /** What the robot description says of a joint. The name of the joint it mimics is empty when there is none. */
  datatype JointRecord<T> = JointRecord(
    name: string, parent: string, child: string,
    kind: JointType, axis: Vec3, origin: T, mimic: JointMimic)
  {
    predicate IsMimic() {
      mimic.name != ""
    }
  }

  datatype Motion = Motion(position: real, velocity: real, effort: real)

  /** The JointState message. */
  datatype JointState = JointState(name: string, motion: Motion)

  function Through(m: JointMimic, x: real): real {
    x * m.multiplier + m.offset
  }

  function Follow(m: JointMimic, s: Motion): Motion {
    Motion(Through(m, s.position), Through(m, s.velocity), Through(m, s.effort))
  }

  // ---------- Mimic chains as values

  /** The joint a mimic joint follows. */
  ghost function Followed<T>(records: map<string, JointRecord<T>>): string -> seq<string> {
    name => if name in records && records[name].IsMimic() then [records[name].mimic.name] else []
  }

  /** Following mimic names from a joint ends, within n steps, at a joint that mimics nobody. */
  ghost predicate ChainEnds<T>(records: map<string, JointRecord<T>>, name: string, n: nat)
    decreases n
  {
    && name in records
    && (records[name].IsMimic() ==> n > 0 && ChainEnds(records, records[name].mimic.name, n - 1))
  }

  /** Every name met when following mimic names from a joint is a joint, and none is met twice. */
  ghost predicate Driven<T>(records: map<string, JointRecord<T>>, name: string) {
    && NoneRecurs(Followed(records), name)
    && forall path :: Trail(Followed(records), name, path) ==> path[|path| - 1] in records
  }

  /** That is exactly when the chain ends, and it then does so within as many steps as there are joints. */
  lemma ChainEndsIff<T>(records: map<string, JointRecord<T>>, name: string)
    ensures (exists n :: ChainEnds(records, name, n)) <==> Driven(records, name)
    ensures Driven(records, name) ==> ChainEnds(records, name, |records.Keys|)
  {
    hide ChainEnds, NoneRecurs;
    var next := Followed(records);
    EndsIff(next, records.Keys, name);
    if Driven(records, name) {
      assert Trail(next, name, [name]);
      ChainEndsFrom(records, name, [name], |records.Keys|);
    }
    if n: nat :| ChainEnds(records, name, n) {
      ChainStops(records, name, n);
      assert EndsWithin(next, name, n);
      assert NoneRecurs(next, name);
      forall path | Trail(next, name, path) ensures path[|path| - 1] in records {
        ChainMeets(records, name, n, path, |path| - 1);
      }
    }
  }

  lemma {:induction false} ChainEndsFrom<T>(records: map<string, JointRecord<T>>, start: string, path: seq<string>,
                                            n: nat)
    requires Driven(records, start) && Trail(Followed(records), start, path)
    requires EndsWithin(Followed(records), path[|path| - 1], n)
    ensures ChainEnds(records, path[|path| - 1], n)
    decreases n
  {
    hide NoneRecurs;
    var last := path[|path| - 1];
    if records[last].IsMimic() {
      var m := records[last].mimic.name;
      assert m in Followed(records)(last);
      TrailSnoc(Followed(records), start, path, m);
      ChainEndsFrom(records, start, path + [m], n - 1);
    }
  }

  lemma {:induction false} ChainStops<T>(records: map<string, JointRecord<T>>, name: string, n: nat)
    requires ChainEnds(records, name, n)
    ensures EndsWithin(Followed(records), name, n)
    decreases n
  {
    if records[name].IsMimic() {
      ChainStops(records, records[name].mimic.name, n - 1);
    }
  }

  lemma {:induction false} ChainMeets<T>(records: map<string, JointRecord<T>>, name: string, n: nat, path: seq<string>,
                                         k: nat)
    requires ChainEnds(records, name, n) && Trail(Followed(records), name, path) && k < |path|
    ensures k <= n && ChainEnds(records, path[k], n - k)
  {
    if k > 0 {
      ChainMeets(records, name, n, path, k - 1);
      assert path[k] in Followed(records)(path[k - 1]);
    }
  }

  /** The chain of the joint that a mimic joint follows is the rest of its own chain. */
  lemma DrivenStep<T>(records: map<string, JointRecord<T>>, name: string)
    requires Driven(records, name)
    ensures name in records
    ensures records[name].IsMimic() ==>
              var m := records[name].mimic.name;
              Driven(records, m) && Steps(Followed(records), m) < Steps(Followed(records), name)
  {
    hide NoneRecurs, Steps;
    var next := Followed(records);
    assert Trail(next, name, [name]);
    if records[name].IsMimic() {
      var m := records[name].mimic.name;
      StepOn(next, records.Keys, name, m);
      forall path | Trail(next, m, path) ensures path[|path| - 1] in records {
        TrailCons(next, name, m, path);
        assert ([name] + path)[|path|] == path[|path| - 1];
      }
    }
  }

  /** What a joint reports when the joints with a state of their own have the given ones. */
  ghost function StateOf<T>(records: map<string, JointRecord<T>>, motions: map<string, Motion>, name: string): Motion
    requires Driven(records, name) && records.Keys <= motions.Keys
    decreases Steps(Followed(records), name)
  {
    DrivenStep(records, name);
    if !records[name].IsMimic() then motions[name]
    else Follow(records[name].mimic, StateOf(records, motions, records[name].mimic.name))
  }

  /** The joint at the end of the chain, which drives it. */
  ghost function DriverOf<T>(records: map<string, JointRecord<T>>, name: string): (driver: string)
    requires Driven(records, name)
    ensures driver in records && !records[driver].IsMimic()
    decreases Steps(Followed(records), name)
  {
    DrivenStep(records, name);
    if !records[name].IsMimic() then name else DriverOf(records, records[name].mimic.name)
  }

  /** The multipliers and offsets on the chain, from the joint to its driver. */
  ghost function LinksOf<T>(records: map<string, JointRecord<T>>, name: string): seq<JointMimic>
    requires Driven(records, name)
    decreases Steps(Followed(records), name)
  {
    DrivenStep(records, name);
    if !records[name].IsMimic() then [] else [records[name].mimic] + LinksOf(records, records[name].mimic.name)
  }

  /** Following through inner first and outer afterwards, as one step. */
  ghost function Both(outer: JointMimic, inner: JointMimic): JointMimic {
    JointMimic("", outer.multiplier * inner.multiplier, outer.multiplier * inner.offset + outer.offset)
  }

  /** One multiplier and one offset that stand for a whole chain. */
  ghost function Composite(links: seq<JointMimic>): JointMimic {
    if links == [] then JointMimic("", 1.0, 0.0) else Both(Composite(links[..|links| - 1]), links[|links| - 1])
  }

  lemma {:induction false} CompositeCons(m: JointMimic, links: seq<JointMimic>)
    ensures var inner, all := Composite(links), Composite([m] + links);
            && all.multiplier == m.multiplier * inner.multiplier
            && all.offset == m.multiplier * inner.offset + m.offset
  {
    hide Composite;
    CompositeOf(links);
    CompositeOf([m] + links);
    if links == [] {
      CompositeOf([]);
      assert ([m] + links)[..0] == [];
    } else {
      var init, last := links[..|links| - 1], links[|links| - 1];
      assert ([m] + links)[..|links|] == [m] + init;
      CompositeCons(m, init);
      var k, inner, all := m.multiplier, Composite(init), Composite([m] + init);
      Regroup(k, inner.multiplier, last.multiplier, all.multiplier);
      Regroup(k, inner.multiplier, last.offset, all.multiplier);
      Distributes(k, inner.multiplier * last.offset, inner.offset);
    }
  }

  lemma CompositeOf(links: seq<JointMimic>)
    ensures Composite(links) ==
            if links == [] then JointMimic("", 1.0, 0.0) else Both(Composite(links[..|links| - 1]), links[|links| - 1])
  {
    hide Both;
  }

  /** A joint reports its driver's state through the composite of its chain. */
  lemma StateIsComposite<T>(records: map<string, JointRecord<T>>, motions: map<string, Motion>, name: string)
    requires Driven(records, name) && records.Keys <= motions.Keys
    ensures var s, all, x := StateOf(records, motions, name), Composite(LinksOf(records, name)),
                             motions[DriverOf(records, name)];
            && s.position == all.multiplier * x.position + all.offset
            && s.velocity == all.multiplier * x.velocity + all.offset
            && s.effort == all.multiplier * x.effort + all.offset
  {
    hide Driven, Steps, Composite, StateOf;
    StateFollows(records, motions, name);
    var all, x := Composite(LinksOf(records, name)), motions[DriverOf(records, name)];
    Commute(all.multiplier, x.position);
    Commute(all.multiplier, x.velocity);
    Commute(all.multiplier, x.effort);
  }

  /** y is x times the multiplier, plus the offset. */
  ghost predicate IsImage(m: JointMimic, x: real, y: real) {
    y == x * m.multiplier + m.offset
  }

  lemma ThroughIsImage(m: JointMimic, x: real)
    ensures IsImage(m, x, Through(m, x))
  {
  }

  /** A mimic joint reports what the joint it follows does, times its multiplier and plus its offset. */
  lemma MimicReports<T>(records: map<string, JointRecord<T>>, motions: map<string, Motion>, name: string)
    requires Driven(records, name) && records.Keys <= motions.Keys && name in records && records[name].IsMimic()
    ensures Driven(records, records[name].mimic.name)
    ensures var k := records[name].mimic;
            var s, followed := StateOf(records, motions, name), StateOf(records, motions, k.name);
            && s.position == followed.position * k.multiplier + k.offset
            && s.velocity == followed.velocity * k.multiplier + k.offset
            && s.effort == followed.effort * k.multiplier + k.offset
  {
    hide Driven, Steps, StateOf;
    StateStep(records, motions, name);
  }

  /** One step of StateOf. */
  lemma StateStep<T>(records: map<string, JointRecord<T>>, motions: map<string, Motion>, name: string)
    requires Driven(records, name) && records.Keys <= motions.Keys
    ensures name in records
    ensures !records[name].IsMimic() ==> StateOf(records, motions, name) == motions[name]
    ensures records[name].IsMimic() ==>
              var m := records[name].mimic;
              && Driven(records, m.name) && Steps(Followed(records), m.name) < Steps(Followed(records), name)
              && var s, followed := StateOf(records, motions, name), StateOf(records, motions, m.name);
              && s == Follow(m, followed)
              && IsImage(m, followed.position, s.position)
              && IsImage(m, followed.velocity, s.velocity)
              && IsImage(m, followed.effort, s.effort)
  {
    hide Driven, Steps, Through, IsImage;
    DrivenStep(records, name);
    if records[name].IsMimic() {
      var m := records[name].mimic;
      var followed := StateOf(records, motions, m.name);
      ThroughIsImage(m, followed.position);
      ThroughIsImage(m, followed.velocity);
      ThroughIsImage(m, followed.effort);
    }
  }

  lemma {:induction false} StateFollows<T>(records: map<string, JointRecord<T>>, motions: map<string, Motion>,
                                           name: string)
    requires Driven(records, name) && records.Keys <= motions.Keys
    ensures StateOf(records, motions, name)
            == Follow(Composite(LinksOf(records, name)), motions[DriverOf(records, name)])
    decreases Steps(Followed(records), name)
  {
    hide Driven, Steps, Follow, Composite;
    DrivenStep(records, name);
    CompositeOf([]);
    FollowUnit(motions[DriverOf(records, name)]);
    if records[name].IsMimic() {
      var m, next := records[name].mimic, records[name].mimic.name;
      var links := LinksOf(records, next);
      StateFollows(records, motions, next);
      CompositeCons(m, links);
      FollowTwice(m, Composite(links), Composite([m] + links), motions[DriverOf(records, next)]);
    }
  }

  lemma FollowUnit(s: Motion)
    ensures Follow(JointMimic("", 1.0, 0.0), s) == s
  {
  }

  lemma FollowTwice(m: JointMimic, inner: JointMimic, all: JointMimic, s: Motion)
    requires all.multiplier == m.multiplier * inner.multiplier
    requires all.offset == m.multiplier * inner.offset + m.offset
    ensures Follow(m, Follow(inner, s)) == Follow(all, s)
  {
    AffineTwice(s.position, inner.multiplier, inner.offset, m.multiplier, m.offset, all.multiplier, all.offset);
    AffineTwice(s.velocity, inner.multiplier, inner.offset, m.multiplier, m.offset, all.multiplier, all.offset);
    AffineTwice(s.effort, inner.multiplier, inner.offset, m.multiplier, m.offset, all.multiplier, all.offset);
  }

  // ---------- Setting states

  /** set_state for one message: unknown joints and mimic joints are ignored. */
  function SetOne<T>(records: map<string, JointRecord<T>>, motions: map<string, Motion>, js: JointState)
      : map<string, Motion>
  {
    if js.name in records && !records[js.name].IsMimic() then motions[js.name := js.motion] else motions
  }

  function SetAll<T>(records: map<string, JointRecord<T>>, motions: map<string, Motion>,
                     states: seq<JointState>): map<string, Motion> {
    if states == [] then motions
    else SetOne(records, SetAll(records, motions, states[..|states| - 1]), states[|states| - 1])
  }

  lemma {:induction false} SetAllKeys<T>(records: map<string, JointRecord<T>>, motions: map<string, Motion>,
                                         states: seq<JointState>)
    requires records.Keys <= motions.Keys
    ensures records.Keys <= SetAll(records, motions, states).Keys
    ensures motions.Keys == SetAll(records, motions, states).Keys
  {
    if states != [] {
      SetAllKeys(records, motions, states[..|states| - 1]);
    }
  }

  /**
   Setting a joint that has a state of its own moves the joints whose chain ends there, and no others;
   and it moves one of those exactly when the chain does not flatten the change to nothing, be it of the position,
   the velocity or the effort.
   */
  lemma SetAffectsExactly<T>(records: map<string, JointRecord<T>>, motions: map<string, Motion>, js: JointState,
                             name: string)
    requires Driven(records, name) && records.Keys <= motions.Keys
    requires js.name in records && !records[js.name].IsMimic()
    ensures var after, links := SetOne(records, motions, js), Composite(LinksOf(records, name));
            StateOf(records, after, name) ==
            if DriverOf(records, name) == js.name then Follow(links, js.motion) else StateOf(records, motions, name)
    ensures var before, after := StateOf(records, motions, name), StateOf(records, SetOne(records, motions, js), name);
            var passed := DriverOf(records, name) == js.name && Composite(LinksOf(records, name)).multiplier != 0.0;
            && (after.position != before.position <==> passed && js.motion.position != motions[js.name].position)
            && (after.velocity != before.velocity <==> passed && js.motion.velocity != motions[js.name].velocity)
            && (after.effort != before.effort <==> passed && js.motion.effort != motions[js.name].effort)
  {
    hide StateOf, Composite, LinksOf, Driven, DriverOf;
    var after, links := SetOne(records, motions, js), Composite(LinksOf(records, name));
    StateFollows(records, motions, name);
    StateFollows(records, after, name);
    ScaledApart(js.motion.position, motions[js.name].position, links.multiplier);
    ScaledApart(js.motion.velocity, motions[js.name].velocity, links.multiplier);
    ScaledApart(js.motion.effort, motions[js.name].effort, links.multiplier);
  }

  /** The joints a message names. */
  ghost function Reported(states: seq<JointState>): set<string> {
    if states == [] then {} else Reported(states[..|states| - 1]) + {states[|states| - 1].name}
  }

  /**
   After a message a joint has the state of the last entry that names it. A joint that no entry names, and a mimic
   joint, keep what they had, and no state appears for a name that had none.
   */
  lemma {:induction false} SetAllExact<T>(records: map<string, JointRecord<T>>, motions: map<string, Motion>,
                                          states: seq<JointState>, name: string) returns (last: int)
    requires records.Keys <= motions.Keys && name in motions
    ensures var after, settable := SetAll(records, motions, states), name in records && records[name].mimic.name == "";
            && after.Keys == motions.Keys
            && -1 <= last < |states| && (last >= 0 ==> states[last].name == name)
            && (forall i :: last < i < |states| ==> states[i].name != name)
            && after[name] == if last >= 0 && settable then states[last].motion else motions[name]
  {
    last := -1;
    if states != [] {
      var n := |states| - 1;
      last := SetAllExact(records, motions, states[..n], name);
      assert forall i :: 0 <= i < n ==> states[..n][i] == states[i];
      last := if states[n].name == name then n else last;
    }
  }

  /** So a message decides the state of every joint it names that has one. */
  lemma SetAllDecides<T>(records: map<string, JointRecord<T>>, motions: map<string, Motion>, states: seq<JointState>,
                         name: string, motion: Motion)
    requires records.Keys <= motions.Keys
    requires name in records && !records[name].IsMimic() && name in Reported(states)
    requires forall i :: 0 <= i < |states| && states[i].name == name ==> states[i].motion == motion
    ensures name in SetAll(records, motions, states) && SetAll(records, motions, states)[name] == motion
  {
    var last := SetAllExact(records, motions, states, name);
    ReportedAt(states, name);
  }

  lemma {:induction false} ReportedAt(states: seq<JointState>, name: string)
    requires name in Reported(states)
    ensures exists i :: 0 <= i < |states| && states[i].name == name
  {
    var n := |states| - 1;
    if states[n].name != name {
      ReportedAt(states[..n], name);
      assert forall i :: 0 <= i < n ==> states[..n][i] == states[i];
    }
  }

  /**
   A complete report of one model's states, sent to another model of the same structure, makes every joint
   of the second, mimic or not, report what the first one does.
   */
  lemma TransferAgrees<T>(records: map<string, JointRecord<T>>, sender: map<string, Motion>,
                          receiver: map<string, Motion>, report: seq<JointState>, name: string)
    requires records.Keys <= sender.Keys && records.Keys <= receiver.Keys
    requires forall j :: j in records ==> Driven(records, j)
    requires forall i :: 0 <= i < |report| ==>
               report[i].name in records && report[i].motion == StateOf(records, sender, report[i].name)
    requires Reported(report) == records.Keys
    requires name in records
    ensures records.Keys <= SetAll(records, receiver, report).Keys
    ensures StateOf(records, SetAll(records, receiver, report), name) == StateOf(records, sender, name)
  {
    var after, driver := SetAll(records, receiver, report), DriverOf(records, name);
    SetAllKeys(records, receiver, report);
    SetAllDecides(records, receiver, report, driver, sender[driver]);
    StateFollows(records, sender, name);
    StateFollows(records, after, name);
  }

  // ---------- The joint itself

  class Joint<T(!new)> {
    const info: JointRecord<T>
    // Filled in once all joints are known.
    var mimicJoint: Joint?<T>
    var motion: Motion

    constructor (info: JointRecord<T>)
      ensures this.info == info && mimicJoint == null && motion == Motion(0.0, 0.0, 0.0)
    {
      this.info := info;
      mimicJoint := null;
      motion := Motion(0.0, 0.0, 0.0);
    }

    /** What the joint it follows reports. */
    ghost function FollowedState(joints: map<string, Joint<T>>): Motion
      requires Wired(joints) && info.name in joints && joints[info.name] == this && info.IsMimic()
      requires Driven(RecordsOf(joints), info.name)
      reads this, joints.Values
    {
      DrivenStep(RecordsOf(joints), info.name);
      StateOf(RecordsOf(joints), MotionsOf(joints), info.mimic.name)
    }

    /** get_state; the joints of the model are only there to show that the recursion ends. */
    function GetState(ghost joints: map<string, Joint<T>>): (s: JointState)
      requires Wired(joints) && info.name in joints && joints[info.name] == this
      requires Driven(RecordsOf(joints), info.name)
      reads this, joints.Values
      decreases Steps(Followed(RecordsOf(joints)), info.name)
      ensures s == JointState(info.name, StateOf(RecordsOf(joints), MotionsOf(joints), info.name))
      ensures info.IsMimic() ==>
                var mimicked := FollowedState(joints);
                && IsImage(info.mimic, mimicked.position, s.motion.position)
                && IsImage(info.mimic, mimicked.velocity, s.motion.velocity)
                && IsImage(info.mimic, mimicked.effort, s.motion.effort)
    {
      hide Driven, Steps, Through, IsImage, StateOf;
      StateStep(RecordsOf(joints), MotionsOf(joints), info.name);
      if info.IsMimic() then
        JointState(info.name, Follow(info.mimic, mimicJoint.GetState(joints).motion))
      else JointState(info.name, motion)
    }

    /** position() and velocity() go through get_state of the mimicked joint, and so agree with get_state. */
    function Position(ghost joints: map<string, Joint<T>>): (x: real)
      requires Wired(joints) && info.name in joints && joints[info.name] == this
      requires Driven(RecordsOf(joints), info.name)
      reads this, joints.Values
      ensures x == GetState(joints).motion.position
      ensures info.IsMimic() ==>
                IsImage(info.mimic, FollowedState(joints).position, x)
    {
      hide Driven, Steps, Through, IsImage, StateOf;
      StateStep(RecordsOf(joints), MotionsOf(joints), info.name);
      if info.IsMimic() then
        Through(info.mimic, mimicJoint.GetState(joints).motion.position)
      else motion.position
    }

    function Velocity(ghost joints: map<string, Joint<T>>): (x: real)
      requires Wired(joints) && info.name in joints && joints[info.name] == this
      requires Driven(RecordsOf(joints), info.name)
      reads this, joints.Values
      ensures x == GetState(joints).motion.velocity
      ensures info.IsMimic() ==>
                IsImage(info.mimic, FollowedState(joints).velocity, x)
    {
      hide Driven, Steps, Through, IsImage, StateOf;
      StateStep(RecordsOf(joints), MotionsOf(joints), info.name);
      if info.IsMimic() then
        Through(info.mimic, mimicJoint.GetState(joints).motion.velocity)
      else motion.velocity
    }

    /** A mimic joint only warns. */
    method SetState(motion: Motion)
      modifies this`motion
      ensures this.motion == if info.IsMimic() then old(this.motion) else motion
    {
      if info.IsMimic() {
        return;
      }
      this.motion := motion;
    }
  }

  /** The joint's transform at a position: its origin, then the turn or the slide along its axis, if it has one. */
  function TransformAt<T>(g: Algebra<T>, r: JointRecord<T>, position: real): T {
    if r.axis == Vec3(0.0, 0.0, 0.0) then r.origin
    else match r.kind
      case Revolute => g.mul(r.origin, g.turn(r.axis, position))
      case Continuous => g.mul(r.origin, g.turn(r.axis, position))
      case Prismatic => g.mul(r.origin, g.slide(r.axis, position))
      case Fixed => r.origin
  }

  /** Seen from the joint's origin, a joint is moved by its turn or its slide; a fixed joint and one without axis are
      not. */
  lemma MovesFromOrigin<T(!new)>(g: Algebra<T>, r: JointRecord<T>, position: real)
    requires IsGroup(g)
    ensures g.mul(g.inv(r.origin), TransformAt(g, r, position)) ==
            if r.kind == Fixed || (r.axis.x == 0.0 && r.axis.y == 0.0 && r.axis.z == 0.0) then g.one
            else if r.kind == Prismatic then g.slide(r.axis, position)
            else g.turn(r.axis, position)
  {
    Associative(g, g.inv(r.origin), r.origin, g.slide(r.axis, position));
    Associative(g, g.inv(r.origin), r.origin, g.turn(r.axis, position));
  }

  /** The joints are filed under their own names, and mimic joints point to the joint they name. */
  ghost predicate Wired<T(!new)>(joints: map<string, Joint<T>>)
    reads joints.Values
  {
    forall name :: name in joints ==>
      && joints[name].info.name == name
      && (joints[name].info.IsMimic() ==>
            && joints[name].info.mimic.name in joints
            && joints[name].mimicJoint == joints[joints[name].info.mimic.name])
  }

  ghost function RecordsOf<T(!new)>(joints: map<string, Joint<T>>): map<string, JointRecord<T>> {
    map name | name in joints :: joints[name].info
  }

  ghost function MotionsOf<T(!new)>(joints: map<string, Joint<T>>): map<string, Motion>
    reads joints.Values
  {
    map name | name in joints :: joints[name].motion
  }
}
