/** Which room belongs to which space: two tables, one per direction, rebuilt from state events. */
module Spaces {
  import opened Options

  type RoomId = string
  type UserId = string

  datatype ChildEvent = ChildEvent(stateKey: RoomId, hasVia: bool)

  datatype ParentEvent = ParentEvent(stateKey: RoomId, hasVia: bool, sender: UserId)

  /** Power levels as far as they matter here: each user's level, and the level a child event needs. */
  datatype Levels = Levels(user: UserId -> int, spaceChild: int)

  datatype RoomState = RoomState(children: seq<ChildEvent>, parents: seq<ParentEvent>, levels: Option<Levels>)

  /** A table with several values per key. */
  type Multi = map<RoomId, set<RoomId>>

  function At(m: Multi, k: RoomId): set<RoomId> {
    if k in m then m[k] else {}
  }

  function Put(m: Multi, k: RoomId, v: RoomId): (m': Multi)
    ensures forall j :: At(m', j) == if j == k then At(m, k) + {v} else At(m, j)
  {
    m[k := At(m, k) + {v}]
  }

  function Del(m: Multi, k: RoomId, v: RoomId): (m': Multi)
    ensures forall j :: At(m', j) == if j == k then At(m, k) - {v} else At(m, j)
  {
    m[k := At(m, k) - {v}]
  }

  function Drop(m: Multi, k: RoomId): (m': Multi)
    ensures forall j :: At(m', j) == if j == k then {} else At(m, j)
  {
    m - {k}
  }

  /** The two tables hold the same links, once by space and once by child. */
  ghost predicate Inverse(children: Multi, parents: Multi) {
    forall s, c {:trigger c in At(children, s)} :: c in At(children, s) <==> s in At(parents, c)
  }

  predicate IsRoomId(key: string) {
    |key| > 3 && key[0] == '!'
  }

  /** The stored state: what is known of each room, and which rooms are joined. */
  datatype State = State(rooms: map<RoomId, RoomState>, joined: set<RoomId>) {

    function Children(space: RoomId): seq<ChildEvent> {
      if space in rooms then rooms[space].children else []
    }

    function Parents(room: RoomId): seq<ParentEvent> {
      if room in rooms then rooms[room].parents else []
    }

    function LevelsOf(space: RoomId): Option<Levels> {
      if space in rooms then rooms[space].levels else None
    }

    /** The sender of a parent event could have added the room to the space. */
    predicate Authorised(e: ParentEvent) {
      var levels := LevelsOf(e.stateKey);
      levels.Some? && levels.value.user(e.sender) >= levels.value.spaceChild
    }

    /** The space has a valid child event for the room. */
    ghost predicate Names(space: RoomId, child: RoomId) {
      IsRoomId(child) && exists i :: 0 <= i < |Children(space)| && Children(space)[i] == ChildEvent(child, true)
    }

    predicate Counts(e: ParentEvent) {
      e.hasVia && IsRoomId(e.stateKey) && Authorised(e)
    }

    /** The room has a valid parent event for the space, by a sender with the power to add it. */
    ghost predicate Claims(room: RoomId, space: RoomId) {
      exists i :: 0 <= i < |Parents(room)| && Parents(room)[i].stateKey == space && Counts(Parents(room)[i])
    }

    /** The room has a parent event for the space, valid or not. */
    ghost predicate Mentions(room: RoomId, space: RoomId) {
      exists i :: 0 <= i < |Parents(room)| && Parents(room)[i].stateKey == space
    }
  }

  /** The rooms whose parent events an update goes through. */
  ghost predicate Revisited(state: State, spaces: set<RoomId>, rooms: set<RoomId>, room: RoomId) {
    room in rooms || (room in state.joined && exists s :: s in spaces && state.Mentions(room, s))
  }

  /** Whether a link is there after an update. */
  ghost predicate LinkedAfter(state: State, before: Multi, spaces: set<RoomId>, rooms: set<RoomId>, s: RoomId,
                              c: RoomId) {
    || (if s in spaces then state.Names(s, c) else c in At(before, s))
    || (state.Claims(c, s) && Revisited(state, spaces, rooms, c))
  }

  /** A rebuilt space's joined children are exactly those it names itself and those that claim it with
      the power to do so, whatever was stored before. */
  lemma RebuiltChildren(state: State, before: Multi, spaces: set<RoomId>, rooms: set<RoomId>, s: RoomId, c: RoomId)
    requires s in spaces && c in state.joined
    ensures LinkedAfter(state, before, spaces, rooms, s, c) <==> state.Names(s, c) || state.Claims(c, s)
  {
    if state.Claims(c, s) {
      assert state.Mentions(c, s);
    }
  }

  /** The event of a joined room that makes it a child of a space: it names a server and the space, and its
      sender has the level the space asks for to add children. */
  ghost predicate Authorising(state: State, room: RoomId, space: RoomId, i: nat) {
    && room in state.rooms && i < |state.rooms[room].parents|
    && space in state.rooms && state.rooms[space].levels.Some?
    && var e, levels := state.rooms[room].parents[i], state.rooms[space].levels.value;
    e.hasVia && e.stateKey == space && |space| > 3 && space[0] == '!' && levels.user(e.sender) >= levels.spaceChild
  }

  /** The event of a space that makes a room its child: it names a server, and the room by its id. */
  ghost predicate Naming(state: State, space: RoomId, room: RoomId, i: nat) {
    && space in state.rooms && i < |state.rooms[space].children|
    && var e := state.rooms[space].children[i]; e.hasVia && e.stateKey == room && |room| > 3 && room[0] == '!'
  }

  /** The same event by event. */
  lemma RebuiltChildrenByEvents(state: State, before: Multi, spaces: set<RoomId>, rooms: set<RoomId>, s: RoomId,
                                c: RoomId)
    requires s in spaces && c in state.joined
    ensures LinkedAfter(state, before, spaces, rooms, s, c) <==>
              (exists i: nat :: Naming(state, s, c, i)) || (exists i: nat :: Authorising(state, c, s, i))
  {
    RebuiltChildren(state, before, spaces, rooms, s, c);
    if state.Names(s, c) {
      var i :| 0 <= i < |state.Children(s)| && state.Children(s)[i] == ChildEvent(c, true);
      assert Naming(state, s, c, i);
    }
    if i: nat :| Naming(state, s, c, i) {
      assert state.Children(s)[i] == ChildEvent(c, true);
    }
    if state.Claims(c, s) {
      var i :| 0 <= i < |state.Parents(c)| && state.Parents(c)[i].stateKey == s && state.Counts(state.Parents(c)[i]);
      assert Authorising(state, c, s, i);
    }
    if i: nat :| Authorising(state, c, s, i) {
      assert state.Parents(c)[i].stateKey == s && state.Counts(state.Parents(c)[i]);
    }
  }

  /** A space that is not rebuilt loses no child. It gains the rooms with a valid claim that the update
      went through: the given ones, and joined ones with a parent event for a rebuilt space. */
  lemma OtherChildren(state: State, before: Multi, spaces: set<RoomId>, rooms: set<RoomId>, s: RoomId, c: RoomId)
    requires s !in spaces
    ensures LinkedAfter(state, before, spaces, rooms, s, c) <==>
              || c in At(before, s)
              || (state.Claims(c, s) &&
                  (c in rooms || (c in state.joined && exists space :: space in spaces && state.Mentions(c, space))))
  {
  }

  /** A child a rebuilt space has without having joined it is one it names, or one the update was given
      with a valid claim. */
  lemma RebuiltForeignChildren(state: State, before: Multi, spaces: set<RoomId>, rooms: set<RoomId>, s: RoomId,
                               c: RoomId)
    requires s in spaces && c !in state.joined
    ensures LinkedAfter(state, before, spaces, rooms, s, c) <==> state.Names(s, c) || (state.Claims(c, s) && c in rooms)
  {
  }

  class SpaceTables {
    var children: Multi  // spacesChildren: space -> child rooms
    var parents: Multi   // spacesParents: room -> spaces

    ghost predicate Valid()
      reads this
    {
      Inverse(children, parents)
    }

    constructor ()
      ensures Valid() && children == map[] && parents == map[]
    {
      children, parents := map[], map[];
    }

    method AddLink(space: RoomId, child: RoomId)
      requires Valid()
      modifies this
      ensures Valid()
      ensures forall s :: At(children, s) == At(old(children), s) + if s == space then {child} else {}
    {
      children := Put(children, space, child);
      parents := Put(parents, child, space);
    }

    /** Deletes all links of a space, child by child in the other table. */
    method DropSpace(space: RoomId)
      requires Valid()
      modifies this
      ensures Valid()
      ensures forall s :: At(children, s) == if s == space then {} else At(old(children), s)
    {
      var rest := At(children, space);
      while rest != {}
        invariant children == old(children) && rest <= At(children, space)
        invariant forall s, c :: s in At(parents, c) <==> c in At(children, s) && !(s == space && c !in rest)
        decreases |rest|
      {
        var child :| child in rest;
        parents := Del(parents, child, space);
        rest := rest - {child};
      }
      children := Drop(children, space);
    }

    /** Rebuilds what a space says about itself. */
    method RebuildSpace(state: State, space: RoomId)
      requires Valid()
      modifies this
      ensures Valid()
      ensures forall s, c {:trigger c in At(children, s)} :: c in At(children, s) <==>
                if s == space then state.Names(space, c) else c in At(old(children), s)
    {
      DropSpace(space);
      var evs := state.Children(space);
      for n := 0 to |evs|
        invariant Valid()
        invariant forall s :: s != space ==> At(children, s) == At(old(children), s)
        invariant forall c :: c in At(children, space) <==>
                    IsRoomId(c) && exists i :: 0 <= i < n && evs[i] == ChildEvent(c, true)
      {
        if evs[n].hasVia && IsRoomId(evs[n].stateKey) {
          assert evs[n] == ChildEvent(evs[n].stateKey, true);
          AddLink(space, evs[n].stateKey);
        }
      }
    }

    /** Adds a room to the spaces it claims. */
    method ApplyParents(state: State, room: RoomId)
      requires Valid()
      modifies this
      ensures Valid()
      ensures forall s, c {:trigger c in At(children, s)} :: c in At(children, s) <==>
                c in At(old(children), s) || (c == room && state.Claims(room, s))
    {
      var evs := state.Parents(room);
      for n := 0 to |evs|
        invariant Valid()
        invariant forall s, c {:trigger c in At(children, s)} :: c in At(children, s) <==>
                    c in At(old(children), s) ||
                    (c == room && exists i :: 0 <= i < n && evs[i].stateKey == s && state.Counts(evs[i]))
      {
        var e := evs[n];
        if e.hasVia && IsRoomId(e.stateKey) {
          var levels := state.LevelsOf(e.stateKey);
          if levels.None? {
            continue;
          }
          if levels.value.user(e.sender) >= levels.value.spaceChild {
            AddLink(e.stateKey, room);
          }
        }
      }
    }

    /** Rebuilds the given spaces one after the other and collects the rooms to go through next. */
    method RebuildSpaces(state: State, spaces: set<RoomId>, rooms: set<RoomId>) returns (toVisit: set<RoomId>)
      requires Valid()
      modifies this
      ensures Valid()
      ensures forall s, c {:trigger c in At(children, s)} :: c in At(children, s) <==>
                if s in spaces then state.Names(s, c) else c in At(old(children), s)
      ensures forall r :: r in toVisit <==> Revisited(state, spaces, rooms, r)
    {
      toVisit := rooms;
      var rest := spaces;
      while rest != {}
        invariant Valid() && rest <= spaces
        invariant forall s, c {:trigger c in At(children, s)} :: c in At(children, s) <==>
                    if s in spaces - rest then state.Names(s, c) else c in At(old(children), s)
        invariant forall r :: r in toVisit <==> Revisited(state, spaces - rest, rooms, r)
        decreases |rest|
      {
        var space :| space in rest;
        RebuildSpace(state, space);
        var mentioning := JoinedMentioning(state, space);
        toVisit := toVisit + mentioning;
        rest := rest - {space};
      }
    }

    method ApplyAllParents(state: State, rooms: set<RoomId>)
      requires Valid()
      modifies this
      ensures Valid()
      ensures forall s, c {:trigger c in At(children, s)} :: c in At(children, s) <==>
                c in At(old(children), s) || (c in rooms && state.Claims(c, s))
    {
      var rest := rooms;
      while rest != {}
        invariant Valid() && rest <= rooms
        invariant forall s, c {:trigger c in At(children, s)} :: c in At(children, s) <==>
                    c in At(old(children), s) || (c in rooms - rest && state.Claims(c, s))
        decreases |rest|
      {
        var room :| room in rest;
        ApplyParents(state, room);
        rest := rest - {room};
      }
    }

    /** Rebuilds the given spaces, then the links claimed by the given rooms and by every joined room
        with a parent event for one of the spaces. */
    method UpdateSpaces(state: State, spaces: set<RoomId>, rooms: set<RoomId>)
      requires Valid()
      modifies this
      ensures Valid()
      ensures forall s, c {:trigger c in At(children, s)} :: c in At(children, s) <==>
                LinkedAfter(state, old(children), spaces, rooms, s, c)
    {
      if spaces == {} && rooms == {} {
        return;
      }
      var toVisit := RebuildSpaces(state, spaces, rooms);
      ApplyAllParents(state, toVisit);
    }
  }

  method JoinedMentioning(state: State, space: RoomId) returns (rooms: set<RoomId>)
    ensures forall r :: r in rooms <==> r in state.joined && state.Mentions(r, space)
  {
    rooms := {};
    var rest := state.joined;
    while rest != {}
      invariant rest <= state.joined
      invariant forall r :: r in rooms <==> r in state.joined - rest && state.Mentions(r, space)
      decreases |rest|
    {
      var r :| r in rest;
      rest := rest - {r};
      var evs, found := state.Parents(r), false;
      for n := 0 to |evs|
        invariant found <==> exists i :: 0 <= i < n && evs[i].stateKey == space
      {
        found := found || evs[n].stateKey == space;
      }
      if found {
        rooms := rooms + {r};
      }
    }
  }
}
