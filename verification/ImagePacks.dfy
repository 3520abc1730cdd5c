/** The image packs a room can use: from the account, from rooms enabled globally, and from the room and
    its canonical parent spaces, found by a walk over a graph that may have cycles. */
module ImagePacks {
  import opened Options
  import opened Sequences

  type RoomId = string

  datatype Usage = Usage(sticker: bool, emoji: bool)

  datatype Image = Image(shortcode: string, overrides: Option<Usage>)

  datatype Pack = Pack(usage: Option<Usage>, images: seq<Image>)

  datatype PackInfo = PackInfo(room: RoomId, stateKey: string, fromSpace: bool, images: seq<Image>)

  /** A room whose state is stored: its default pack, its packs with a state key, and the parents whose
      events are canonical and name a server. */
  datatype Room = Room(pack: Option<Pack>, keyedPacks: seq<(string, Pack)>, parents: seq<RoomId>)

  type Rooms = map<RoomId, Room>

  predicate Fits(usage: Usage, stickers: bool) {
    if stickers then usage.sticker else usage.emoji
  }

  /** Whether an image of the pack is offered where stickers, emoji or, with None, both are wanted. */
  predicate Offered(pack: Pack, image: Image, stickers: Option<bool>) {
    stickers.Some? ==>
      match image.overrides
      case Some(usage) => Fits(usage, stickers.value)
      case None => pack.usage.Some? ==> Fits(pack.usage.value, stickers.value)
  }

  function OfferedImages(pack: Pack, images: seq<Image>, stickers: Option<bool>): seq<Image> {
    if images == [] then []
    else OfferedImages(pack, images[..|images| - 1], stickers) +
         if Offered(pack, images[|images| - 1], stickers) then [images[|images| - 1]] else []
  }

  /** What considering a pack adds to the list: nothing if no image is offered. */
  function Infos(pack: Pack, room: RoomId, stateKey: string, fromSpace: bool, stickers: Option<bool>): seq<PackInfo> {
    var images := OfferedImages(pack, pack.images, stickers);
    if images == [] then [] else [PackInfo(room, stateKey, fromSpace, images)]
  }

  method AddPack(infos: seq<PackInfo>, pack: Pack, room: RoomId, stateKey: string, fromSpace: bool,
                 stickers: Option<bool>)
    returns (infos': seq<PackInfo>)
    ensures infos' == infos + Infos(pack, room, stateKey, fromSpace, stickers)
  {
    var images: seq<Image> := [];
    for n := 0 to |pack.images|
      invariant images == OfferedImages(pack, pack.images[..n], stickers)
    {
      assert pack.images[..n + 1][..n] == pack.images[..n];
      if Offered(pack, pack.images[n], stickers) {
        images := images + [pack.images[n]];
      }
    }
    assert pack.images[..|pack.images|] == pack.images;
    infos' := if images == [] then infos else infos + [PackInfo(room, stateKey, fromSpace, images)];
  }

  /** Filtering image by image: the filter of a list is that of its parts, one after the other. */
  lemma {:induction false} OfferedConcat(pack: Pack, a: seq<Image>, b: seq<Image>, stickers: Option<bool>)
    ensures OfferedImages(pack, a + b, stickers) == OfferedImages(pack, a, stickers) + OfferedImages(pack, b, stickers)
  {
    if b == [] {
      assert a + b == a;
    } else {
      OfferedConcat(pack, a, b[..|b| - 1], stickers);
      assert (a + b)[..|a + b| - 1] == a + b[..|b| - 1];
    }
  }

  /** Which image is offered: any if nothing in particular is wanted, otherwise one whose own usage, or
      that of its pack if it has none, or any if neither has, includes what is wanted. */
  lemma OfferedOne(pack: Pack, image: Image, stickers: Option<bool>)
    ensures var usage := if image.overrides.Some? then image.overrides else pack.usage;
            OfferedImages(pack, [image], stickers) ==
              if || stickers == None || usage == None
                 || (stickers == Some(true) && usage.value.sticker) || (stickers == Some(false) && usage.value.emoji)
              then [image] else []
  {
    assert [image][..0] == [];
  }

  // The walk over canonical parents

  function Parents(rooms: Rooms, room: RoomId): seq<RoomId> {
    if room in rooms then rooms[room].parents else []
  }

  ghost function KeyedInfos(packs: seq<(string, Pack)>, room: RoomId, fromSpace: bool,
                            stickers: Option<bool>): seq<PackInfo> {
    if packs == [] then []
    else KeyedInfos(packs[..|packs| - 1], room, fromSpace, stickers) +
         Infos(packs[|packs| - 1].1, room, packs[|packs| - 1].0, fromSpace, stickers)
  }

  /** What one visited room adds. */
  ghost function RoomInfos(rooms: Rooms, start: RoomId, room: RoomId, stickers: Option<bool>): seq<PackInfo> {
    if room !in rooms then []
    else (if rooms[room].pack.Some? then Infos(rooms[room].pack.value, room, "", room != start, stickers) else []) +
         KeyedInfos(rooms[room].keyedPacks, room, room != start, stickers)
  }

  ghost function AllInfos(rooms: Rooms, start: RoomId, visits: seq<RoomId>, stickers: Option<bool>): seq<PackInfo> {
    if visits == [] then []
    else
      var front, last := visits[..|visits| - 1], visits[|visits| - 1];
      AllInfos(rooms, start, front, stickers) + RoomInfos(rooms, start, last, stickers)
  }

  ghost predicate IsPath(rooms: Rooms, path: seq<RoomId>) {
    path != [] && forall i :: 0 <= i < |path| - 1 ==> path[i + 1] in Parents(rooms, path[i])
  }

  /** b can be reached from a over canonical parents. */
  ghost predicate Reachable(rooms: Rooms, a: RoomId, b: RoomId) {
    exists path :: IsPath(rooms, path) && path[0] == a && path[|path| - 1] == b
  }

  ghost predicate ClosedIn(rooms: Rooms, some: set<RoomId>, all: set<RoomId>) {
    forall r, p :: r in some && p in Parents(rooms, r) ==> p in all
  }

  ghost function Visited(visits: seq<RoomId>): set<RoomId> {
    set r | r in visits
  }

  /** All rooms that are stored or named as a parent. */
  ghost function Known(rooms: Rooms): set<RoomId> {
    rooms.Keys + set r, p | r in rooms && p in rooms[r].parents :: p
  }

  lemma ReachableSelf(rooms: Rooms, a: RoomId)
    ensures Reachable(rooms, a, a)
  {
    assert IsPath(rooms, [a]) && [a][0] == a;
  }

  lemma ReachableVia(rooms: Rooms, a: RoomId, p: RoomId, b: RoomId)
    requires p in Parents(rooms, a) && Reachable(rooms, p, b)
    ensures Reachable(rooms, a, b)
  {
    var path :| IsPath(rooms, path) && path[0] == p && path[|path| - 1] == b;
    assert IsPath(rooms, [a] + path);
  }

  lemma {:induction false} ClosedHoldsReachable(rooms: Rooms, all: set<RoomId>, path: seq<RoomId>)
    requires ClosedIn(rooms, all, all) && IsPath(rooms, path) && path[0] in all
    ensures path[|path| - 1] in all
    decreases |path|
  {
    if |path| > 1 {
      ClosedHoldsReachable(rooms, all, path[1..]);
    }
  }

  lemma {:induction false} AllInfosConcat(rooms: Rooms, start: RoomId, a: seq<RoomId>, b: seq<RoomId>,
                                          stickers: Option<bool>)
    ensures AllInfos(rooms, start, a + b, stickers) ==
              AllInfos(rooms, start, a, stickers) + AllInfos(rooms, start, b, stickers)
  {
    hide RoomInfos;
    if b == [] {
      assert a + b == a && AllInfos(rooms, start, b, stickers) == [];
    } else {
      var front, last := b[..|b| - 1], b[|b| - 1];
      AllInfosConcat(rooms, start, a, front, stickers);
      var x, y, z := AllInfos(rooms, start, a, stickers), AllInfos(rooms, start, front, stickers),
          RoomInfos(rooms, start, last, stickers);
      assert (a + b)[..|a + b| - 1] == a + front && (a + b)[|a + b| - 1] == last;
      assert AllInfos(rooms, start, a + b, stickers) == (x + y) + z;
      assert (x + y) + z == x + (y + z);
    }
  }

  /** Every visit but the first follows one to a room that names it as its parent. */
  ghost predicate NamedBefore(rooms: Rooms, visits: seq<RoomId>, j: nat)
    requires j < |visits|
  {
    exists i :: 0 <= i < j && visits[j] in Parents(rooms, visits[i])
  }

  ghost predicate FromRoom(rooms: Rooms, room: RoomId, visits: seq<RoomId>) {
    (visits != [] ==> visits[0] == room) && forall j :: 0 < j < |visits| ==> NamedBefore(rooms, visits, j)
  }

  lemma FromRoomMore(rooms: Rooms, room: RoomId, visits: seq<RoomId>, parent: RoomId, more: seq<RoomId>)
    requires FromRoom(rooms, room, visits) && FromRoom(rooms, parent, more)
    requires visits != [] && parent in Parents(rooms, room)
    ensures FromRoom(rooms, room, visits + more)
  {
    var all := visits + more;
    forall j | 0 < j < |all| ensures NamedBefore(rooms, all, j) {
      if j < |visits| {
        assert NamedBefore(rooms, visits, j);
        var i :| 0 <= i < j && visits[j] in Parents(rooms, visits[i]);
        assert all[i] == visits[i];
      } else if j == |visits| {
        assert all[0] == room && all[j] == parent;
      } else {
        assert NamedBefore(rooms, more, j - |visits|);
        var i :| 0 <= i < j - |visits| && more[j - |visits|] in Parents(rooms, more[i]);
        assert all[|visits| + i] == more[i];
      }
    }
  }

  /** What one call of the walk does: the new visits are distinct rooms reachable from the room it was
      called for, their parents are all visited, and each of them is considered once. */
  ghost predicate Walked(rooms: Rooms, start: RoomId, stickers: Option<bool>, room: RoomId, visited: set<RoomId>,
                         infos: seq<PackInfo>,
                         visits: seq<RoomId>, visited': set<RoomId>, infos': seq<PackInfo>)
  {
    && Distinct(visits) && Visited(visits) !! visited && visited' == visited + Visited(visits) && room in visited'
    && (forall r :: r in visits ==> Reachable(rooms, room, r))
    && ClosedIn(rooms, Visited(visits), visited') && FromRoom(rooms, room, visits)
    && infos' == infos + AllInfos(rooms, start, visits, stickers)
  }

  lemma OneVisit(rooms: Rooms, start: RoomId, room: RoomId, stickers: Option<bool>)
    ensures AllInfos(rooms, start, [room], stickers) == RoomInfos(rooms, start, room, stickers)
  {
    hide RoomInfos;
    assert [room][..0] == [] && AllInfos(rooms, start, [], stickers) == [];
  }

  /** The first visit: the room itself. */
  lemma WalkBegins(rooms: Rooms, start: RoomId, stickers: Option<bool>, room: RoomId, visited: set<RoomId>,
                   infos: seq<PackInfo>, infos': seq<PackInfo>)
    requires room !in visited && infos' == infos + RoomInfos(rooms, start, room, stickers)
    ensures WalkedSome(rooms, start, stickers, room, visited, infos, 0, [room], visited + {room}, infos')
  {
    hide RoomInfos;
    OneVisit(rooms, start, room, stickers);
    ReachableSelf(rooms, room);
    assert Visited([room]) == {room};
  }

  /** The walk of a room in the middle of its parents, n of them done. */
  ghost predicate WalkedSome(rooms: Rooms, start: RoomId, stickers: Option<bool>, room: RoomId,
                             visited: set<RoomId>, infos: seq<PackInfo>,
                             n: nat, visits: seq<RoomId>, visited': set<RoomId>, infos': seq<PackInfo>)
  {
    && Distinct(visits) && Visited(visits) !! visited && visited' == visited + Visited(visits) && room in visits
    && (forall r :: r in visits ==> Reachable(rooms, room, r))
    && ClosedIn(rooms, Visited(visits) - {room}, visited') && FromRoom(rooms, room, visits)
    && n <= |Parents(rooms, room)| && (forall i :: 0 <= i < n ==> Parents(rooms, room)[i] in visited')
    && infos' == infos + AllInfos(rooms, start, visits, stickers)
  }

  lemma ParentWalked(rooms: Rooms, start: RoomId, stickers: Option<bool>, room: RoomId, visited: set<RoomId>,
                     infos: seq<PackInfo>,
                     n: nat, visits: seq<RoomId>, visited1: set<RoomId>, infos1: seq<PackInfo>,
                     more: seq<RoomId>, visited2: set<RoomId>, infos2: seq<PackInfo>)
    requires WalkedSome(rooms, start, stickers, room, visited, infos, n, visits, visited1, infos1)
    requires n < |Parents(rooms, room)|
    requires Walked(rooms, start, stickers, Parents(rooms, room)[n], visited1, infos1, more, visited2, infos2)
    ensures WalkedSome(rooms, start, stickers, room, visited, infos, n + 1, visits + more, visited2, infos2)
  {
    hide AllInfos, Reachable;
    var all := visits + more;
    assert Visited(all) == Visited(visits) + Visited(more);
    forall i, j | 0 <= i < j < |all| ensures all[i] != all[j] {
      assert all[i] in (if i < |visits| then Visited(visits) else Visited(more));
      assert all[j] in (if j < |visits| then Visited(visits) else Visited(more));
    }
    forall r | r in all ensures Reachable(rooms, room, r) {
      if r in more {
        ReachableVia(rooms, room, Parents(rooms, room)[n], r);
      }
    }
    AllInfosConcat(rooms, start, visits, more, stickers);
    FromRoomMore(rooms, room, visits, Parents(rooms, room)[n], more);
  }

  lemma WalkEnds(rooms: Rooms, start: RoomId, stickers: Option<bool>, room: RoomId, visited: set<RoomId>,
                 infos: seq<PackInfo>,
                 visits: seq<RoomId>, visited': set<RoomId>, infos': seq<PackInfo>)
    requires WalkedSome(rooms, start, stickers, room, visited, infos, |Parents(rooms, room)|, visits, visited',
              infos')
    ensures Walked(rooms, start, stickers, room, visited, infos, visits, visited', infos')
  {
    hide AllInfos, Reachable;
    forall r, p | r in Visited(visits) && p in Parents(rooms, r) ensures p in visited' {
      if r == room {
        var i :| 0 <= i < |Parents(rooms, room)| && Parents(rooms, room)[i] == p;
      }
    }
  }

  lemma NothingWalked(rooms: Rooms, start: RoomId, stickers: Option<bool>, room: RoomId, visited: set<RoomId>,
                      infos: seq<PackInfo>)
    requires room in visited
    ensures Walked(rooms, start, stickers, room, visited, infos, [], visited, infos)
  {
    assert Visited([]) == {};
  }

  /** The packs of one room with stored state. */
  method AddRoom(rooms: Rooms, start: RoomId, room: RoomId, stickers: Option<bool>, infos: seq<PackInfo>)
    returns (infos': seq<PackInfo>)
    requires room in rooms
    ensures infos' == infos + RoomInfos(rooms, start, room, stickers)
  {
    hide Infos, KeyedInfos;
    infos' := infos;
    var here := rooms[room];
    ghost var keyed := KeyedInfos(here.keyedPacks, room, room != start, stickers);
    if here.pack.Some? {
      infos' := AddPack(infos', here.pack.value, room, "", room != start, stickers);
      Associative(infos, Infos(here.pack.value, room, "", room != start, stickers), keyed);
    } else {
      assert [] + keyed == keyed;
    }
    infos' := AddKeyed(infos', here.keyedPacks, room, room != start, stickers);
  }

  /** Visits a room unless that was done before, and then its canonical parents. A room whose state is
      not stored raises an error once it is marked as visited; the caller skips it, so that here the
      room simply adds nothing. */
  method AddRoomAndCanonicalParents(rooms: Rooms, start: RoomId, stickers: Option<bool>, room: RoomId,
                                    visited: set<RoomId>, infos: seq<PackInfo>)
    returns (visited': set<RoomId>, infos': seq<PackInfo>, ghost visits: seq<RoomId>)
    ensures Walked(rooms, start, stickers, room, visited, infos, visits, visited', infos')
    decreases Known(rooms) + {room} - visited, 1
  {
    hide RoomInfos, Walked, WalkedSome, AllInfos;
    visited', infos', visits := visited, infos, [];
    if room in visited {
      NothingWalked(rooms, start, stickers, room, visited, infos);
      return;
    }
    visited', visits := visited + {room}, [room];
    if room !in rooms {
      assert RoomInfos(rooms, start, room, stickers) == [] by { NoInfos(rooms, start, room, stickers); }
      WalkBegins(rooms, start, stickers, room, visited, infos, infos');
      WalkEnds(rooms, start, stickers, room, visited, infos, visits, visited', infos');
      return;
    }
    infos' := AddRoom(rooms, start, room, stickers, infos);
    WalkBegins(rooms, start, stickers, room, visited, infos, infos');
    var parents := rooms[room].parents;
    for n := 0 to |parents|
      invariant WalkedSome(rooms, start, stickers, room, visited, infos, n, visits, visited', infos')
      invariant visited + {room} <= visited'
    {
      assert parents[n] in Known(rooms) by { ParentKnown(rooms, room, n); }
      assert Known(rooms) + {parents[n]} - visited' < Known(rooms) + {room} - visited;
      ghost var more;
      var visited1, infos1 := visited', infos';
      visited', infos', more := AddRoomAndCanonicalParents(rooms, start, stickers, parents[n], visited1, infos1);
      ParentWalked(rooms, start, stickers, room, visited, infos, n, visits, visited1, infos1, more, visited', infos');
      WalkGrows(rooms, start, stickers, parents[n], visited1, infos1, more, visited', infos');
      visits := visits + more;
    }
    WalkEnds(rooms, start, stickers, room, visited, infos, visits, visited', infos');
  }

  lemma NoInfos(rooms: Rooms, start: RoomId, room: RoomId, stickers: Option<bool>)
    requires room !in rooms
    ensures RoomInfos(rooms, start, room, stickers) == []
  {
  }

  lemma ParentKnown(rooms: Rooms, room: RoomId, n: nat)
    requires room in rooms && n < |rooms[room].parents|
    ensures rooms[room].parents[n] in Known(rooms) && room in Known(rooms)
  {
    assert room in rooms && rooms[room].parents[n] in rooms[room].parents;
  }

  lemma WalkGrows(rooms: Rooms, start: RoomId, stickers: Option<bool>, room: RoomId, visited: set<RoomId>,
                  infos: seq<PackInfo>,
                  visits: seq<RoomId>, visited': set<RoomId>, infos': seq<PackInfo>)
    requires Walked(rooms, start, stickers, room, visited, infos, visits, visited', infos')
    ensures visited <= visited'
  {
  }

  /** A walk from the start visits exactly the rooms that can be reached from it. */
  lemma WalkIsReachability(rooms: Rooms, start: RoomId, stickers: Option<bool>, infos: seq<PackInfo>,
                           visits: seq<RoomId>, visited': set<RoomId>, infos': seq<PackInfo>)
    requires Walked(rooms, start, stickers, start, {}, infos, visits, visited', infos')
    ensures forall r :: r in visits <==> Reachable(rooms, start, r)
    ensures visits != [] && visits[0] == start
  {
    assert start in Visited(visits);
    forall r | Reachable(rooms, start, r) ensures r in visits {
      var path :| IsPath(rooms, path) && path[0] == start && path[|path| - 1] == r;
      ClosedHoldsReachable(rooms, visited', path);
    }
  }

  // The whole list

  /** A room enabled globally, with the packs found for its enabled state keys. */
  datatype Enabled = Enabled(room: RoomId, packs: seq<(string, Pack)>)

  ghost function EnabledInfos(enabled: seq<Enabled>, start: RoomId, stickers: Option<bool>): seq<PackInfo> {
    if enabled == [] then []
    else
      var last := enabled[|enabled| - 1];
      EnabledInfos(enabled[..|enabled| - 1], start, stickers) +
      if last.room == start then [] else KeyedInfos(last.packs, last.room, false, stickers)
  }

  lemma NothingEnabled(start: RoomId, stickers: Option<bool>)
    ensures EnabledInfos([], start, stickers) == []
  {
  }

  lemma EnabledStep(enabled: seq<Enabled>, n: nat, start: RoomId, stickers: Option<bool>)
    requires n < |enabled|
    ensures EnabledInfos(enabled[..n + 1], start, stickers) ==
              if enabled[n].room == start then EnabledInfos(enabled[..n], start, stickers)
              else EnabledInfos(enabled[..n], start, stickers) +
                   KeyedInfos(enabled[n].packs, enabled[n].room, false, stickers)
  {
    assert enabled[..n + 1][..n] == enabled[..n];
  }

  /** The info is what is offered of a pack, which is something. */
  ghost predicate OfPack(info: PackInfo, pack: Pack, room: RoomId, stateKey: string, fromSpace: bool,
                         stickers: Option<bool>) {
    && info.room == room && info.stateKey == stateKey && info.fromSpace == fromSpace
    && info.images == OfferedImages(pack, pack.images, stickers) && info.images != []
  }

  ghost predicate OfSome(info: PackInfo, packs: seq<(string, Pack)>, room: RoomId, fromSpace: bool,
                         stickers: Option<bool>) {
    exists k :: 0 <= k < |packs| && OfPack(info, packs[k].1, room, packs[k].0, fromSpace, stickers)
  }

  ghost predicate OfRoom(rooms: Rooms, start: RoomId, room: RoomId, stickers: Option<bool>, info: PackInfo) {
    room in rooms &&
    (|| (rooms[room].pack.Some? && OfPack(info, rooms[room].pack.value, room, "", room != start, stickers))
     || OfSome(info, rooms[room].keyedPacks, room, room != start, stickers))
  }

  ghost predicate OfEnabled(enabled: seq<Enabled>, start: RoomId, stickers: Option<bool>, info: PackInfo) {
    exists i :: 0 <= i < |enabled| && enabled[i].room != start
                && OfSome(info, enabled[i].packs, enabled[i].room, false, stickers)
  }

  /** What the list has: something of the account's pack, of an enabled pack of another room, or of a pack
      of a room that can be reached, marked as coming from a space if that is another room. */
  ghost predicate Listed(rooms: Rooms, account: Option<Pack>, enabled: seq<Enabled>, start: RoomId,
                         stickers: Option<bool>, info: PackInfo)
  {
    || (account.Some? && OfPack(info, account.value, "", "", false, stickers))
    || OfEnabled(enabled, start, stickers, info)
    || exists room :: Reachable(rooms, start, room) && OfRoom(rooms, start, room, stickers, info)
  }

  lemma InfosIn(pack: Pack, room: RoomId, stateKey: string, fromSpace: bool, stickers: Option<bool>)
    ensures forall info :: info in Infos(pack, room, stateKey, fromSpace, stickers) <==>
              OfPack(info, pack, room, stateKey, fromSpace, stickers)
  {
  }

  lemma {:induction false} KeyedInfosIn(packs: seq<(string, Pack)>, room: RoomId, fromSpace: bool,
                                        stickers: Option<bool>)
    ensures forall info :: info in KeyedInfos(packs, room, fromSpace, stickers) <==>
              OfSome(info, packs, room, fromSpace, stickers)
  {
    hide Infos, OfPack;
    if packs != [] {
      var front, last := packs[..|packs| - 1], packs[|packs| - 1];
      KeyedInfosIn(front, room, fromSpace, stickers);
      InfosIn(last.1, room, last.0, fromSpace, stickers);
      forall info ensures OfSome(info, packs, room, fromSpace, stickers) <==>
        OfSome(info, front, room, fromSpace, stickers) || OfPack(info, last.1, room, last.0, fromSpace, stickers)
      {
        if OfSome(info, front, room, fromSpace, stickers) {
          var k :| 0 <= k < |front| && OfPack(info, front[k].1, room, front[k].0, fromSpace, stickers);
          assert packs[k] == front[k];
        }
      }
    }
  }

  /** A room's packs with something to offer are listed once each. */
  lemma RoomInfosOnce(rooms: Rooms, start: RoomId, room: RoomId, stickers: Option<bool>)
    requires room in rooms
    ensures var here := rooms[room];
            |RoomInfos(rooms, start, room, stickers)| ==
              (if here.pack.Some? && Offers(here.pack.value, stickers) then 1 else 0)
              + |Offering(here.keyedPacks, stickers)|
  {
    hide KeyedInfos, Offers, Offering;
    KeyedInfosOnce(rooms[room].keyedPacks, room, room != start, stickers);
    if rooms[room].pack.Some? {
      OneInfo(rooms[room].pack.value, room, "", room != start, stickers);
    }
  }

  ghost function Offering(packs: seq<(string, Pack)>, stickers: Option<bool>): set<int> {
    set k | 0 <= k < |packs| && Offers(packs[k].1, stickers)
  }

  ghost predicate Offers(pack: Pack, stickers: Option<bool>) {
    OfferedImages(pack, pack.images, stickers) != []
  }

  lemma {:induction false} KeyedInfosOnce(packs: seq<(string, Pack)>, room: RoomId, fromSpace: bool,
                                          stickers: Option<bool>)
    ensures |KeyedInfos(packs, room, fromSpace, stickers)| == |Offering(packs, stickers)|
  {
    hide OfferedImages, Offering, Offers;
    NothingOffering(stickers);
    if packs != [] {
      var n := |packs| - 1;
      KeyedInfosOnce(packs[..n], room, fromSpace, stickers);
      OfferingOneMore(packs, n, stickers);
      OneInfo(packs[n].1, room, packs[n].0, fromSpace, stickers);
    }
  }

  lemma OneInfo(pack: Pack, room: RoomId, stateKey: string, fromSpace: bool, stickers: Option<bool>)
    ensures |Infos(pack, room, stateKey, fromSpace, stickers)| ==
              if Offers(pack, stickers) then 1 else 0
  {
  }

  lemma NothingOffering(stickers: Option<bool>)
    ensures |Offering([], stickers)| == 0
  {
  }

  lemma OfferingOneMore(packs: seq<(string, Pack)>, n: nat, stickers: Option<bool>)
    requires |packs| == n + 1
    ensures |Offering(packs, stickers)| ==
              |Offering(packs[..n], stickers)| + if Offers(packs[n].1, stickers) then 1 else 0
  {
    hide Offers;
    var before, last := Offering(packs[..n], stickers), if Offers(packs[n].1, stickers) then {n} else {};
    assert before !! last;
    forall k ensures k in Offering(packs, stickers) <==> k in before || k in last {
    }
    assert Offering(packs, stickers) == before + last;
  }

  lemma RoomInfosIn(rooms: Rooms, start: RoomId, room: RoomId, stickers: Option<bool>)
    ensures forall info :: info in RoomInfos(rooms, start, room, stickers) <==>
              OfRoom(rooms, start, room, stickers, info)
  {
    hide Infos, KeyedInfos, OfPack, OfSome;
    if room in rooms {
      KeyedInfosIn(rooms[room].keyedPacks, room, room != start, stickers);
      if rooms[room].pack.Some? {
        InfosIn(rooms[room].pack.value, room, "", room != start, stickers);
      }
    }
  }

  lemma {:induction false} AllInfosIn(rooms: Rooms, start: RoomId, visits: seq<RoomId>, stickers: Option<bool>)
    ensures forall info :: info in AllInfos(rooms, start, visits, stickers) <==>
              exists room :: room in visits && OfRoom(rooms, start, room, stickers, info)
  {
    hide RoomInfos, OfRoom;
    if visits != [] {
      var front, last := visits[..|visits| - 1], visits[|visits| - 1];
      AllInfosIn(rooms, start, front, stickers);
      RoomInfosIn(rooms, start, last, stickers);
      assert forall room :: room in visits <==> room in front || room == last;
    }
  }

  lemma {:induction false} EnabledInfosIn(enabled: seq<Enabled>, start: RoomId, stickers: Option<bool>)
    ensures forall info :: info in EnabledInfos(enabled, start, stickers) <==> OfEnabled(enabled, start, stickers, info)
  {
    hide KeyedInfos, OfSome;
    if enabled != [] {
      var front, last := enabled[..|enabled| - 1], enabled[|enabled| - 1];
      EnabledInfosIn(front, start, stickers);
      KeyedInfosIn(last.packs, last.room, false, stickers);
      forall info ensures OfEnabled(enabled, start, stickers, info) <==>
        || OfEnabled(front, start, stickers, info)
        || (last.room != start && OfSome(info, last.packs, last.room, false, stickers))
      {
        if OfEnabled(front, start, stickers, info) {
          var i :| 0 <= i < |front| && front[i].room != start
                   && OfSome(info, front[i].packs, front[i].room, false, stickers);
          assert enabled[i] == front[i];
        }
      }
    }
  }

  lemma ListedExactly(rooms: Rooms, account: Option<Pack>, enabled: seq<Enabled>, start: RoomId, stickers: Option<bool>,
                      visits: seq<RoomId>, first: seq<PackInfo>, second: seq<PackInfo>, infos: seq<PackInfo>)
    requires first == if account.Some? then Infos(account.value, "", "", false, stickers) else []
    requires second == first + EnabledInfos(enabled, start, stickers)
    requires infos == second + AllInfos(rooms, start, visits, stickers)
    requires forall x :: x in visits <==> Reachable(rooms, start, x)
    ensures forall info :: info in infos <==> Listed(rooms, account, enabled, start, stickers, info)
  {
    hide Infos, EnabledInfos, AllInfos, OfPack, OfEnabled, OfRoom, Reachable;
    if account.Some? {
      InfosIn(account.value, "", "", false, stickers);
    }
    EnabledInfosIn(enabled, start, stickers);
    AllInfosIn(rooms, start, visits, stickers);
  }

  /** The account's pack first, then the globally enabled ones, then those of the room and of every
      room reachable from it, each considered exactly once; None if the room's state is not stored. */
  method GetImagePacks(rooms: Rooms, account: Option<Pack>, enabled: seq<Enabled>, room: RoomId,
                       stickers: Option<bool>)
    returns (r: Option<seq<PackInfo>>, ghost visits: seq<RoomId>)
    ensures r.None? <==> room !in rooms
    ensures Distinct(visits) && forall x :: x in visits <==> Reachable(rooms, room, x)
    ensures visits != [] && FromRoom(rooms, room, visits)
    ensures r.Some? ==> forall info :: info in r.value <==> Listed(rooms, account, enabled, room, stickers, info)
    ensures r.Some? ==>
              r.value == (if account.Some? then Infos(account.value, "", "", false, stickers) else []) +
                         EnabledInfos(enabled, room, stickers) + AllInfos(rooms, room, visits, stickers)
  {
    hide Infos, KeyedInfos, EnabledInfos, RoomInfos, AllInfos, Reachable;
    NothingEnabled(room, stickers);
    var infos: seq<PackInfo> := [];
    if account.Some? {
      infos := AddPack(infos, account.value, "", "", false, stickers);
    }
    ghost var first := infos;
    for n := 0 to |enabled|
      invariant infos == first + EnabledInfos(enabled[..n], room, stickers)
    {
      EnabledStep(enabled, n, room, stickers);
      if enabled[n].room == room {
        continue;
      }
      Associative(first, EnabledInfos(enabled[..n], room, stickers),
                  KeyedInfos(enabled[n].packs, enabled[n].room, false, stickers));
      infos := AddKeyed(infos, enabled[n].packs, enabled[n].room, false, stickers);
    }
    assert enabled[..|enabled|] == enabled;
    ghost var second := infos;
    var visited;
    visited, infos, visits := AddRoomAndCanonicalParents(rooms, room, stickers, room, {}, infos);
    WalkIsReachability(rooms, room, stickers, second, visits, visited, infos);
    r := if room in rooms then Some(infos) else None;
    if room in rooms {
      ListedExactly(rooms, account, enabled, room, stickers, visits, first, second, infos);
    }
  }

  method AddKeyed(infos: seq<PackInfo>, packs: seq<(string, Pack)>, room: RoomId, fromSpace: bool,
                  stickers: Option<bool>)
    returns (infos': seq<PackInfo>)
    ensures infos' == infos + KeyedInfos(packs, room, fromSpace, stickers)
  {
    hide Infos;
    infos' := infos;
    for n := 0 to |packs|
      invariant infos' == infos + KeyedInfos(packs[..n], room, fromSpace, stickers)
    {
      assert packs[..n + 1][..n] == packs[..n];
      infos' := AddPack(infos', packs[n].1, room, packs[n].0, fromSpace, stickers);
    }
    assert packs[..|packs|] == packs;
  }
}
