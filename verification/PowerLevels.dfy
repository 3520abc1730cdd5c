/** The list of event types and power levels behind the power level editor. */
module PowerLevels {
  import opened ByteStrings
  import opened Options
  import opened Sequences

  type Name = Bytes
  type Level = int

  /** An event type with its level; an entry without a name is the header of a level. */
  datatype Entry = Entry(name: Name, level: Level)

  datatype Levels = Levels(
    events: map<Name, Level>,
    users: map<Name, Level>,
    eventsDefault: Level,
    stateDefault: Level,
    usersDefault: Level,
    ban: Level,
    kick: Level,
    invite: Level,
    redact: Level)

  const DOT: Byte := 46

  predicate Dotted(name: Name) {
    DOT in name
  }

  function Ascii(s: string): (r: Name)
    requires forall c :: c in s ==> c as int < 256
    ensures |r| == |s| && forall i :: 0 <= i < |s| ==> r[i] == s[i] as int
  {
    seq(|s|, i requires 0 <= i < |s| && s[i] in s => AsciiByte(s[i]))
  }

  function AsciiByte(c: char): Byte
    requires c as int < 256
  {
    c as int
  }

  const DEFAULT_STATES: Name := Ascii("zdefault_states")
  const DEFAULT_EVENTS: Name := Ascii("zdefault_events")
  const BAN: Name := Ascii("ban")
  const KICK: Name := Ascii("kick")
  const INVITE: Name := Ascii("invite")
  const REDACT: Name := Ascii("redact")

  /** The levels that are not of an event type, as entries. */
  function BuiltIn(p: Levels): seq<Entry> {
    [Entry(DEFAULT_STATES, p.stateDefault), Entry(DEFAULT_EVENTS, p.eventsDefault), Entry(BAN, p.ban),
     Entry(KICK, p.kick), Entry(INVITE, p.invite), Entry(REDACT, p.redact)]
  }

  function Defaults(p: Levels): seq<Level> {
    [p.eventsDefault, p.stateDefault, p.usersDefault, p.ban, p.kick, p.invite, p.redact]
  }

  lemma BuiltInNames(p: Levels)
    ensures forall i, j :: 0 <= i < j < 6 ==> BuiltIn(p)[i].name != BuiltIn(p)[j].name
    ensures forall i :: 0 <= i < 6 ==> BuiltIn(p)[i].name != [] && !Dotted(BuiltIn(p)[i].name)
  {
    assert DEFAULT_STATES[9] != DEFAULT_EVENTS[9] && INVITE[0] != REDACT[0];
  }

  // The order of the list

  /** Higher levels first; within a level its header, then names with a dot, then the others, each in
      byte order. */
  predicate Precedes(a: Entry, b: Entry) {
    if a.level != b.level then a.level > b.level
    else if (a.name == []) != (b.name == []) then a.name == []
    else if Dotted(a.name) != Dotted(b.name) then Dotted(a.name)
    else Less(a.name, b.name)
  }

  lemma PrecedesIsTransitive(a: Entry, b: Entry, c: Entry)
    requires Precedes(a, b) && Precedes(b, c)
    ensures Precedes(a, c)
  {
    if a.level == b.level == c.level && Less(a.name, b.name) && Less(b.name, c.name) {
      LessIsTransitive(a.name, b.name, c.name);
    }
  }

  lemma PrecedesIsTotal(a: Entry, b: Entry)
    ensures a == b || Precedes(a, b) || Precedes(b, a)
    ensures !(Precedes(a, b) && Precedes(b, a)) && !Precedes(a, a)
  {
    LessIsTotal(a.name, b.name);
    LessIsTotal(a.name, a.name);
  }

  ghost predicate Sorted(types: seq<Entry>) {
    forall i, j :: 0 <= i < j < |types| ==> !Precedes(types[j], types[i])
  }

  method Sort(types: seq<Entry>) returns (sorted: seq<Entry>)
    ensures Sorted(sorted) && multiset(sorted) == multiset(types)
  {
    sorted := [];
    for n := 0 to |types|
      invariant Sorted(sorted) && multiset(sorted) == multiset(types[..n])
    {
      assert types[..n + 1] == types[..n] + [types[n]];
      sorted := InsertSorted(sorted, types[n]);
    }
    assert types[..|types|] == types;
  }

  method InsertSorted(sorted: seq<Entry>, x: Entry) returns (r: seq<Entry>)
    requires Sorted(sorted)
    ensures Sorted(r) && multiset(r) == multiset(sorted + [x])
  {
    var at := 0;
    while at < |sorted| && !Precedes(x, sorted[at])
      invariant at <= |sorted| && forall i :: 0 <= i < at ==> !Precedes(x, sorted[i])
    {
      at := at + 1;
    }
    InsertedSorted(sorted, at, x);
    assert sorted == sorted[..at] + sorted[at..];
    r := sorted[..at] + [x] + sorted[at..];
  }

  lemma InsertedSorted(sorted: seq<Entry>, at: nat, x: Entry)
    requires Sorted(sorted) && at <= |sorted| && forall i :: 0 <= i < at ==> !Precedes(x, sorted[i])
    requires at < |sorted| ==> Precedes(x, sorted[at])
    ensures Sorted(sorted[..at] + [x] + sorted[at..])
  {
    forall j | at <= j < |sorted| ensures !Precedes(sorted[j], x) {
      PrecedesIsTotal(sorted[at], sorted[j]);
      PrecedesIsTotal(x, sorted[j]);
      if Precedes(sorted[at], sorted[j]) {
        PrecedesIsTransitive(x, sorted[at], sorted[j]);
      }
    }
  }

  /** The order leaves no choice: any correct sort gives the same list. */
  lemma {:induction false} SortedIsUnique(a: seq<Entry>, b: seq<Entry>)
    requires Sorted(a) && Sorted(b) && multiset(a) == multiset(b)
    ensures a == b
  {
    hide Sorted, Precedes;
    assert |a| == |multiset(a)| && |b| == |multiset(b)|;
    if a != [] {
      HeadsAgree(a, b);
      TailSorted(a);
      TailSorted(b);
      SortedIsUnique(a[1..], b[1..]);
    }
  }

  lemma TailSorted(a: seq<Entry>)
    requires Sorted(a) && a != []
    ensures Sorted(a[1..]) && a == [a[0]] + a[1..] && multiset(a[1..]) == multiset(a) - multiset{a[0]}
  {
    assert a == [a[0]] + a[1..];
  }

  lemma HeadsAgree(a: seq<Entry>, b: seq<Entry>)
    requires Sorted(a) && Sorted(b) && multiset(a) == multiset(b) && a != []
    ensures b != [] && a[0] == b[0]
  {
    hide Sorted, Precedes;
    assert a[0] in multiset(b);
    assert b[0] in multiset(a);
    HeadIsFirst(a, b[0]);
    HeadIsFirst(b, a[0]);
    PrecedesIsTotal(a[0], b[0]);
  }

  lemma HeadIsFirst(a: seq<Entry>, x: Entry)
    requires Sorted(a) && x in a
    ensures x == a[0] || Precedes(a[0], x)
  {
    PrecedesIsTotal(a[0], x);
  }

  // The list as it is first made

  /** Adds the header of a level unless the level was seen before. */
  method AddHeader(types: seq<Entry>, seen: set<Level>, level: Level) returns (types': seq<Entry>, seen': set<Level>)
    ensures types' == if level in seen then types else types + [Entry([], level)]
    ensures seen' == seen + {level}
  {
    types', seen' := types, seen;
    if level !in seen {
      types' := types + [Entry([], level)];
      seen' := seen + {level};
    }
  }

  function One(b: bool): nat {
    if b then 1 else 0
  }

  /** The list has the events with the given names and the headers of the given levels, once each. */
  ghost predicate Lists(types: seq<Entry>, events: map<Name, Level>, names: set<Name>, headers: set<Level>) {
    forall e :: multiset(types)[e] ==
      One(e.name in names && e.name in events && events[e.name] == e.level) + One(e.name == [] && e.level in headers)
  }

  /** The levels that get a header; the level creators have is taken for seen when no event type or user
      has it. */
  ghost function Headers(p: Levels, creator: Option<Level>): set<Level> {
    p.events.Values + p.users.Values + DefaultHeaders(p, creator, 7)
  }

  ghost function DefaultHeaders(p: Levels, creator: Option<Level>, n: nat): set<Level>
    requires n <= 7
  {
    set i | 0 <= i < n && creator != Some(Defaults(p)[i]) :: Defaults(p)[i]
  }

  /** How often an entry is in the list at first. */
  ghost function Initial(p: Levels, creator: Option<Level>, e: Entry): nat {
    One(e.name in p.events && p.events[e.name] == e.level) + One(e.name == [] && e.level in Headers(p, creator)) +
    One(e in BuiltIn(p))
  }

  ghost predicate IsInitial(types: seq<Entry>, p: Levels, creator: Option<Level>) {
    Sorted(types) && forall e :: multiset(types)[e] == Initial(p, creator, e)
  }

  ghost function LevelsOf(levels: map<Name, Level>, names: set<Name>): set<Level> {
    set name | name in names && name in levels :: levels[name]
  }

  lemma LevelsOfAdd(levels: map<Name, Level>, names: set<Name>, name: Name)
    requires name in levels
    ensures LevelsOf(levels, names + {name}) == LevelsOf(levels, names) + {levels[name]}
  {
  }

  lemma LevelsOfAll(levels: map<Name, Level>)
    ensures LevelsOf(levels, {}) == {} && LevelsOf(levels, levels.Keys) == levels.Values
  {
    assert forall level :: level in levels.Values <==> exists name :: name in levels && levels[name] == level;
  }

  lemma HeaderListed(types: seq<Entry>, events: map<Name, Level>, names: set<Name>, headers: set<Level>, level: Level)
    requires Lists(types, events, names, headers)
    ensures level in headers ==> Lists(types, events, names, headers + {level})
    ensures level !in headers ==> Lists(types + [Entry([], level)], events, names, headers + {level})
  {
    if level in headers {
      assert headers + {level} == headers;
    }
  }

  lemma NameListed(types: seq<Entry>, events: map<Name, Level>, names: set<Name>, headers: set<Level>, name: Name)
    requires Lists(types, events, names, headers) && name in events && name !in names
    ensures Lists(types + [Entry(name, events[name])], events, names + {name}, headers)
  {
  }

  method EventsListed(events: map<Name, Level>) returns (types: seq<Entry>, seen: set<Level>)
    ensures Lists(types, events, events.Keys, seen) && seen == events.Values
  {
    types, seen := [], {};
    var rest := events.Keys;
    ghost var done := {};
    LevelsOfAll(events);
    assert Lists(types, events, done, seen);
    hide Lists, LevelsOf;
    while rest != {}
      invariant done !! rest && done + rest == events.Keys
      invariant Lists(types, events, done, seen) && seen == LevelsOf(events, done)
    {
      var name :| name in rest;
      HeaderListed(types, events, done, seen, events[name]);
      types, seen := AddHeader(types, seen, events[name]);
      NameListed(types, events, done, seen, name);
      LevelsOfAdd(events, done, name);
      types := types + [Entry(name, events[name])];
      rest, done := rest - {name}, done + {name};
    }
    assert done == events.Keys;
  }

  method UsersListed(types: seq<Entry>, seen: set<Level>, p: Levels) returns (types': seq<Entry>, seen': set<Level>)
    requires Lists(types, p.events, p.events.Keys, seen)
    ensures Lists(types', p.events, p.events.Keys, seen') && seen' == seen + p.users.Values
  {
    hide Lists, LevelsOf;
    types', seen' := types, seen;
    var rest := p.users.Keys;
    ghost var done := {};
    LevelsOfAll(p.users);
    while rest != {}
      invariant done !! rest && done + rest == p.users.Keys
      invariant Lists(types', p.events, p.events.Keys, seen') && seen' == seen + LevelsOf(p.users, done)
    {
      var user :| user in rest;
      HeaderListed(types', p.events, p.events.Keys, seen', p.users[user]);
      LevelsOfAdd(p.users, done, user);
      types', seen' := AddHeader(types', seen', p.users[user]);
      rest, done := rest - {user}, done + {user};
    }
    assert done == p.users.Keys;
  }

  lemma DefaultHeadersAdd(p: Levels, creator: Option<Level>, n: nat)
    requires n < 7
    ensures DefaultHeaders(p, creator, n + 1) ==
              DefaultHeaders(p, creator, n) + if creator == Some(Defaults(p)[n]) then {} else {Defaults(p)[n]}
  {
  }

  method DefaultsListed(types: seq<Entry>, headers: set<Level>, p: Levels, creator: Option<Level>)
    returns (types': seq<Entry>)
    requires Lists(types, p.events, p.events.Keys, headers)
    ensures Lists(types', p.events, p.events.Keys, headers + DefaultHeaders(p, creator, 7))
  {
    types' := types;
    var seen := headers;
    if creator.Some? {
      seen := seen + {creator.value};
    }
    ghost var listed := headers;
    assert DefaultHeaders(p, creator, 0) == {};
    hide Lists, DefaultHeaders;
    for n := 0 to 7
      invariant listed == headers + DefaultHeaders(p, creator, n)
      invariant Lists(types', p.events, p.events.Keys, listed)
      invariant seen == listed + if creator.Some? then {creator.value} else {}
    {
      var level := Defaults(p)[n];
      DefaultHeadersAdd(p, creator, n);
      HeaderListed(types', p.events, p.events.Keys, listed, level);
      types', seen := AddHeader(types', seen, level);
      if creator != Some(level) {
        listed := listed + {level};
      }
      assert listed == headers + DefaultHeaders(p, creator, n + 1);
      assert seen == listed + if creator.Some? then {creator.value} else {};
    }
  }

  /** The list the editor opens with. */
  method MakeTypes(p: Levels, creator: Option<Level>) returns (types: seq<Entry>)
    ensures IsInitial(types, p, creator)
  {
    var listed, seen := EventsListed(p.events);
    listed, seen := UsersListed(listed, seen, p);
    listed := DefaultsListed(listed, seen, p, creator);
    BuiltInListed(listed, p, creator);
    types := Sort(listed + BuiltIn(p));
  }

  lemma BuiltInListed(types: seq<Entry>, p: Levels, creator: Option<Level>)
    requires Lists(types, p.events, p.events.Keys, Headers(p, creator))
    ensures forall e :: multiset(types + BuiltIn(p))[e] == Initial(p, creator, e)
  {
    hide BuiltIn, Headers;
    forall e ensures multiset(types + BuiltIn(p))[e] == Initial(p, creator, e) {
      OnceInBuiltIn(p, e);
    }
  }

  lemma OnceInBuiltIn(p: Levels, e: Entry)
    ensures multiset(BuiltIn(p))[e] == One(e in BuiltIn(p))
  {
    BuiltInNames(p);
    CountInDistinct(BuiltIn(p), e);
  }

  lemma {:induction false} CountInDistinct(types: seq<Entry>, e: Entry)
    requires Distinct(types)
    ensures multiset(types)[e] == One(e in types)
  {
    if types != [] {
      var front, last := types[..|types| - 1], types[|types| - 1];
      CountInDistinct(front, e);
      assert types == front + [last];
      assert last !in front;
    }
  }

  // What every edit keeps

  ghost predicate Descending(types: seq<Entry>) {
    forall i, j :: 0 <= i < j < |types| ==> types[i].level >= types[j].level
  }

  ghost predicate NoRepeats(types: seq<Entry>) {
    forall i, j :: 0 <= i < j < |types| && types[i].name == types[j].name ==> types[i].name == []
  }

  lemma InitialDescending(types: seq<Entry>, p: Levels, creator: Option<Level>)
    requires IsInitial(types, p, creator)
    ensures Descending(types)
  {
  }

  /** An entry with a name is in the first list exactly if it is an event type's or built in. */
  lemma InitialEntries(types: seq<Entry>, p: Levels, creator: Option<Level>, e: Entry)
    requires IsInitial(types, p, creator) && e.name != []
    ensures e in types <==> (e.name in p.events && p.events[e.name] == e.level) || e in BuiltIn(p)
  {
    assert e in types <==> multiset(types)[e] > 0;
    assert multiset(types)[e] == Initial(p, creator, e);
  }

  ghost predicate Shadows(p: Levels) {
    exists i :: 0 <= i < 6 && BuiltIn(p)[i].name in p.events
  }

  /** At first no name is listed twice, unless the room has an event type with one of the six built-in
      names. */
  lemma InitialNoRepeats(types: seq<Entry>, p: Levels, creator: Option<Level>)
    requires IsInitial(types, p, creator)
    ensures NoRepeats(types) <==> !Shadows(p)
  {
    BuiltInNames(p);
    if !Shadows(p) {
      forall i, j | 0 <= i < j < |types| && types[i].name == types[j].name ensures types[i].name == [] {
        if types[i].name != [] {
          assert multiset(types)[types[i]] == Initial(p, creator, types[i]);
          CountTwice(types, i, j);
          InitialEntries(types, p, creator, types[i]);
          InitialEntries(types, p, creator, types[j]);
        }
      }
    } else {
      var k :| 0 <= k < 6 && BuiltIn(p)[k].name in p.events;
      var b := BuiltIn(p)[k];
      var a := Entry(b.name, p.events[b.name]);
      InitialEntries(types, p, creator, a);
      InitialEntries(types, p, creator, b);
      assert multiset(types)[a] == Initial(p, creator, a);
      if NoRepeats(types) {
        NamesOnce(types, a, b);
        CountOnce(types, a);
      }
    }
  }

  lemma CountTwice(types: seq<Entry>, i: nat, j: nat)
    requires i < j < |types|
    ensures types[i] == types[j] ==> multiset(types)[types[i]] >= 2
  {
    assert types == types[..j] + types[j..];
    assert types[..j][i] in multiset(types[..j]) && types[j..][0] in multiset(types[j..]);
  }

  lemma NamesOnce(types: seq<Entry>, a: Entry, b: Entry)
    requires NoRepeats(types) && a in types && b in types && a.name == b.name != []
    ensures a == b
  {
    var i :| 0 <= i < |types| && types[i] == a;
    var j :| 0 <= j < |types| && types[j] == b;
  }

  lemma CountOnce(types: seq<Entry>, a: Entry)
    requires NoRepeats(types) && a in types && a.name != []
    ensures multiset(types)[a] == 1
  {
    var i :| 0 <= i < |types| && types[i] == a;
    assert types == types[..i] + [a] + types[i + 1..];
    assert a !in types[..i] && a !in types[i + 1..];
  }

  /** How the first list is ordered: by level from high to low; in a level its header, then names with a
      dot, then the others, and each of the two kinds of names in byte order. */
  lemma InitialOrder(types: seq<Entry>, p: Levels, creator: Option<Level>, i: nat, j: nat)
    requires IsInitial(types, p, creator) && i < j < |types|
    ensures types[i].level >= types[j].level
    ensures types[i].level == types[j].level && types[j].name == [] ==> types[i].name == []
    ensures types[i].level == types[j].level && types[i].name != [] && DOT in types[j].name ==> DOT in types[i].name
    ensures types[i].level == types[j].level && (DOT in types[i].name <==> DOT in types[j].name) ==>
              types[i].name == types[j].name || Less(types[i].name, types[j].name)
  {
    PrecedesIsTotal(types[i], types[j]);
    LessIsTotal(types[i].name, types[j].name);
  }

  /** Which levels have a header at first: all there are, except a default level that only the creators
      have. */
  lemma InitialHeaders(types: seq<Entry>, p: Levels, creator: Option<Level>, level: Level)
    requires IsInitial(types, p, creator) && [] !in p.events
    ensures Entry([], level) in types <==>
              || level in p.events.Values || level in p.users.Values
              || (creator != Some(level) && level in {p.eventsDefault, p.stateDefault, p.usersDefault, p.ban, p.kick,
                                                      p.invite, p.redact})
    ensures multiset(types)[Entry([], level)] <= 1
  {
    var e := Entry([], level);
    assert e in types <==> multiset(types)[e] > 0;
    assert multiset(types)[e] == Initial(p, creator, e);
    BuiltInNames(p);
    var d := Defaults(p);
    assert level in DefaultHeaders(p, creator, 7) <==>
      creator != Some(level) && exists i :: 0 <= i < 7 && d[i] == level;
    assert d[0] == p.eventsDefault && d[1] == p.stateDefault && d[2] == p.usersDefault && d[3] == p.ban;
    assert d[4] == p.kick && d[5] == p.invite && d[6] == p.redact;
  }

  // The events map the list stands for

  ghost function EventsOf(types: seq<Entry>): map<Name, Level> {
    if types == [] then map[]
    else
      var last := types[|types| - 1];
      var m := EventsOf(types[..|types| - 1]);
      if Dotted(last.name) then m[last.name := last.level] else m
  }

  ghost predicate DottedOnce(types: seq<Entry>) {
    forall i, j :: 0 <= i < j < |types| && types[i].name == types[j].name ==> !Dotted(types[i].name)
  }

  lemma {:induction false} EventsOfIs(types: seq<Entry>)
    requires DottedOnce(types)
    ensures forall n, l :: Maps(EventsOf(types), n, l) <==> Dotted(n) && Entry(n, l) in types
  {
    if types != [] {
      var front, last := types[..|types| - 1], types[|types| - 1];
      EventsOfIs(front);
      assert forall e :: e in types <==> e in front || e == last;
      assert Dotted(last.name) ==> forall e :: e in front ==> e.name != last.name;
    }
  }

  lemma NamedEvents(types: seq<Entry>)
    requires NoRepeats(types)
    ensures forall n, l :: Maps(EventsOf(types), n, l) <==> Dotted(n) && Entry(n, l) in types
  {
    EventsOfIs(types);
  }

  ghost predicate Maps(m: map<Name, Level>, n: Name, l: Level) {
    n in m && m[n] == l
  }

  lemma SameMap(a: map<Name, Level>, b: map<Name, Level>)
    requires forall n, l :: Maps(a, n, l) <==> Maps(b, n, l)
    ensures a == b
  {
    forall n ensures n in a <==> n in b {
      assert n in a ==> Maps(a, n, a[n]);
      assert n in b ==> Maps(b, n, b[n]);
    }
    forall n | n in a ensures a[n] == b[n] {
      assert Maps(a, n, a[n]);
    }
  }

  /** The level of the first entry with a name. */
  ghost function FirstLevel(types: seq<Entry>, name: Name, fallback: Level): Level {
    if types == [] then fallback
    else if types[0].name == name then types[0].level
    else FirstLevel(types[1..], name, fallback)
  }

  lemma {:induction false} FirstLevelIs(types: seq<Entry>, e: Entry, fallback: Level)
    requires NoRepeats(types) && e in types && e.name != []
    ensures FirstLevel(types, e.name, fallback) == e.level
  {
    if types[0] != e {
      assert types == [types[0]] + types[1..];
      FirstLevelIs(types[1..], e, fallback);
    }
  }

  lemma InitialDottedOnce(types: seq<Entry>, p: Levels, creator: Option<Level>)
    requires IsInitial(types, p, creator)
    ensures DottedOnce(types)
    ensures forall n, l :: Dotted(n) ==> (Entry(n, l) in types <==> Maps(p.events, n, l))
  {
    BuiltInNames(p);
    forall n, l | Dotted(n) ensures Entry(n, l) in types <==> Maps(p.events, n, l) {
      InitialEntries(types, p, creator, Entry(n, l));
    }
    forall i, j | 0 <= i < j < |types| && types[i].name == types[j].name ensures !Dotted(types[i].name) {
      var e := types[i];
      assert multiset(types)[e] == Initial(p, creator, e);
      CountTwice(types, i, j);
    }
  }

  /** The events map and the six other levels are what they were. */
  ghost predicate Rebuilds(types: seq<Entry>, p: Levels) {
    && EventsOf(types) == p.events
    && FirstLevel(types, Ascii("kick"), p.usersDefault) == p.kick
    && FirstLevel(types, Ascii("invite"), p.usersDefault) == p.invite
    && FirstLevel(types, Ascii("ban"), p.usersDefault) == p.ban
    && FirstLevel(types, Ascii("redact"), p.usersDefault) == p.redact
    && FirstLevel(types, Ascii("zdefault_events"), p.usersDefault) == p.eventsDefault
    && FirstLevel(types, Ascii("zdefault_states"), p.usersDefault) == p.stateDefault
  }

  /** Without an edit the list gives back the levels it was made from, exactly if every event type has
      a dot in it; others are lost. */
  lemma UneditedRebuilds(types: seq<Entry>, p: Levels, creator: Option<Level>)
    requires IsInitial(types, p, creator)
    ensures Rebuilds(types, p) <==> forall n :: n in p.events ==> Dotted(n)
    ensures EventsOf(types) == p.events <==> forall n :: n in p.events ==> Dotted(n)
  {
    InitialDottedOnce(types, p, creator);
    EventsOfIs(types);
    if EventsOf(types) == p.events {
      forall n | n in p.events ensures Dotted(n) {
        assert Maps(EventsOf(types), n, p.events[n]);
      }
    }
    if forall n :: n in p.events ==> Dotted(n) {
      SameMap(EventsOf(types), p.events);
      BuiltInNames(p);
      InitialNoRepeats(types, p, creator);
      forall i | 0 <= i < 6 ensures FirstLevel(types, BuiltIn(p)[i].name, p.usersDefault) == BuiltIn(p)[i].level {
        InitialEntries(types, p, creator, BuiltIn(p)[i]);
        FirstLevelIs(types, BuiltIn(p)[i], p.usersDefault);
      }
      BuiltInLevels(types, p);
    }
  }

  lemma BuiltInLevels(types: seq<Entry>, p: Levels)
    requires EventsOf(types) == p.events
    requires forall i :: 0 <= i < 6 ==> FirstLevel(types, BuiltIn(p)[i].name, p.usersDefault) == BuiltIn(p)[i].level
    ensures Rebuilds(types, p)
  {
    hide FirstLevel, EventsOf;
    var b := BuiltIn(p);
    assert b[0].level == p.stateDefault && b[1].level == p.eventsDefault && b[2].level == p.ban;
    assert b[3].level == p.kick && b[4].level == p.invite && b[5].level == p.redact;
  }

  // Edits

  ghost function Without(types: seq<Entry>, i: nat): seq<Entry>
    requires i < |types|
  {
    types[..i] + types[i + 1..]
  }

  ghost function With(types: seq<Entry>, at: nat, x: Entry): seq<Entry>
    requires at <= |types|
  {
    types[..at] + [x] + types[at..]
  }

  ghost predicate CanMove(types: seq<Entry>, source: int, dest: int) {
    0 <= source < |types| && 0 <= dest <= |types| && types[source].name != []
  }

  /** The entry from row source put in front of what was at row dest, with the level of the row above. */
  ghost function MovedBefore(types: seq<Entry>, source: int, dest: int): seq<Entry> {
    if source == dest || !CanMove(types, source, dest) then types
    else
      With(Without(types, source), if dest < source then dest else dest - 1,
           Entry(types[source].name, types[if dest > 0 then dest - 1 else 0].level))
  }

  ghost function Moved(types: seq<Entry>, from: int, to: int): seq<Entry> {
    if from == to then types else MovedBefore(types, from, if from < to then to + 1 else to)
  }

  /** The first row with a name, or the length. */
  ghost function RowOf(types: seq<Entry>, name: Name): (i: nat)
    ensures i <= |types| && (i < |types| ==> types[i].name == name)
    ensures forall j :: 0 <= j < i ==> types[j].name != name
  {
    if types == [] || types[0].name == name then 0
    else
      var i := RowOf(types[1..], name);
      assert forall j :: 0 < j < |types| ==> types[j] == types[1..][j - 1];
      i + 1
  }

  ghost function Added(types: seq<Entry>, row: int, name: Name): seq<Entry> {
    var i := RowOf(types, name);
    if !(0 <= row <= |types|) then types
    else if i < |types| then Moved(types, i, if i > row then row + 1 else row)
    else if row < |types| then With(types, row + 1, Entry(name, types[row].level))
    else types
  }

  ghost function FirstBelow(types: seq<Entry>, level: Level): (i: nat)
    ensures i <= |types| && (i < |types| ==> types[i].level < level)
    ensures forall j :: 0 <= j < i ==> types[j].level >= level
  {
    if types == [] || types[0].level < level then 0
    else
      var i := FirstBelow(types[1..], level);
      assert forall j :: 0 < j < |types| ==> types[j] == types[1..][j - 1];
      i + 1
  }

  datatype Edit =
    | MoveRow(from: int, to: int)
    | MoveRows(source: int, count: int, dest: int)
    | Add(row: int, name: Name)
    | AddRole(level: Level)
    | Remove(row: int)

  ghost function Apply(types: seq<Entry>, edit: Edit): seq<Entry> {
    match edit
    case MoveRow(from, to) => Moved(types, from, to)
    case MoveRows(source, count, dest) => if count == 1 then MovedBefore(types, source, dest) else types
    case Add(row, name) => Added(types, row, name)
    case AddRole(level) => With(types, FirstBelow(types, level), Entry([], level))
    case Remove(row) => if 0 <= row < |types| && types[row].name != [] then Without(types, row) else types
  }

  /** Adding a new name behind the last row would read the level of a row that does not exist. */
  ghost predicate Allowed(types: seq<Entry>, edit: Edit) {
    edit.Add? && edit.row == |types| ==> RowOf(types, edit.name) < |types|
  }

  ghost function ApplyAll(types: seq<Entry>, edits: seq<Edit>): seq<Entry> {
    if edits == [] then types else Apply(ApplyAll(types, edits[..|edits| - 1]), edits[|edits| - 1])
  }

  ghost predicate RunAllowed(types: seq<Entry>, edits: seq<Edit>) {
    forall n :: 0 <= n < |edits| ==> Allowed(ApplyAll(types, edits[..n]), edits[n])
  }

  ghost predicate Good(types: seq<Entry>, unique: bool) {
    Descending(types) && (unique ==> NoRepeats(types))
  }

  lemma WithoutIsGood(types: seq<Entry>, i: nat, unique: bool)
    requires Good(types, unique) && i < |types|
    ensures Good(Without(types, i), unique)
    ensures unique && types[i].name != [] ==> forall e :: e in Without(types, i) ==> e.name != types[i].name
  {
  }

  lemma WithIsGood(types: seq<Entry>, at: nat, x: Entry, unique: bool)
    requires Good(types, unique) && at <= |types|
    requires forall j :: 0 <= j < at ==> types[j].level >= x.level
    requires forall j :: at <= j < |types| ==> x.level >= types[j].level
    requires unique ==> x.name == [] || forall e :: e in types ==> e.name != x.name
    ensures Good(With(types, at, x), unique)
  {
  }

  lemma MoveIsGood(types: seq<Entry>, source: int, dest: int, unique: bool)
    requires Good(types, unique)
    ensures Good(MovedBefore(types, source, dest), unique)
  {
    if source != dest && CanMove(types, source, dest) {
      WithoutIsGood(types, source, unique);
      WithIsGood(Without(types, source), if dest < source then dest else dest - 1,
                 Entry(types[source].name, types[if dest > 0 then dest - 1 else 0].level), unique);
    }
  }

  lemma AddIsGood(types: seq<Entry>, row: int, name: Name, unique: bool)
    requires Good(types, unique)
    ensures Good(Added(types, row, name), unique)
  {
    hide With, Without, MovedBefore, NoRepeats, Descending, Good;
    var i := RowOf(types, name);
    if i < |types| {
      var to := if i > row then row + 1 else row;
      MoveIsGood(types, i, if i < to then to + 1 else to, unique);
    } else if 0 <= row < |types| {
      AddNewIsGood(types, row, name, unique);
    }
  }

  lemma AddNewIsGood(types: seq<Entry>, row: nat, name: Name, unique: bool)
    requires Good(types, unique) && row < |types| && RowOf(types, name) == |types|
    ensures Good(With(types, row + 1, Entry(name, types[row].level)), unique)
  {
    WithIsGood(types, row + 1, Entry(name, types[row].level), unique);
  }

  lemma AddRoleIsGood(types: seq<Entry>, level: Level, unique: bool)
    requires Good(types, unique)
    ensures Good(With(types, FirstBelow(types, level), Entry([], level)), unique)
  {
    WithIsGood(types, FirstBelow(types, level), Entry([], level), unique);
  }

  lemma EditIsGood(types: seq<Entry>, edit: Edit, unique: bool)
    requires Good(types, unique)
    ensures Good(Apply(types, edit), unique)
  {
    hide Descending, NoRepeats, With, MovedBefore, Added;
    match edit
    case MoveRow(from, to) => MoveIsGood(types, from, if from < to then to + 1 else to, unique);
    case MoveRows(source, count, dest) => MoveIsGood(types, source, dest, unique);
    case Add(row, name) => AddIsGood(types, row, name, unique);
    case AddRole(level) => AddRoleIsGood(types, level, unique);
    case Remove(row) =>
      if 0 <= row < |types| { WithoutIsGood(types, row, unique); }
  }

  /** Whatever is edited, levels never go up along the list, and no event type is ever listed twice
      unless one was at first. */
  lemma {:induction false} EditsKeepOrder(types: seq<Entry>, p: Levels, creator: Option<Level>, edits: seq<Edit>)
    requires IsInitial(types, p, creator)
    ensures Descending(ApplyAll(types, edits)) && (!Shadows(p) ==> NoRepeats(ApplyAll(types, edits)))
    decreases |edits|
  {
    if edits == [] {
      InitialDescending(types, p, creator);
      InitialNoRepeats(types, p, creator);
    } else {
      EditsKeepOrder(types, p, creator, edits[..|edits| - 1]);
      EditIsGood(ApplyAll(types, edits[..|edits| - 1]), edits[|edits| - 1], !Shadows(p));
    }
  }

  // What an edit changes

  /** The list r is types without its given row: the rows above it stand where they were, those below it
      one row up. */
  ghost predicate TakenOut(types: seq<Entry>, row: nat, r: seq<Entry>) {
    && row < |types| && |r| == |types| - 1
    && (forall j :: 0 <= j < row ==> r[j] == types[j])
    && (forall j :: row < j < |types| ==> r[j - 1] == types[j])
  }

  /** A removal takes out the row it names, unless there is none or it is a header. */
  lemma RemoveTakesOut(types: seq<Entry>, row: int)
    ensures var r := Apply(types, Remove(row));
            if 0 <= row < |types| && types[row].name != [] then TakenOut(types, row, r) else r == types
  {
  }

  /** A new role is a header behind everything of at least its level and before everything below it. */
  lemma AddRolePutsHeader(types: seq<Entry>, level: Level) returns (at: nat)
    ensures var r := Apply(types, AddRole(level));
            && TakenOut(r, at, types) && r[at] == Entry([], level)
            && (forall j :: 0 <= j < at ==> types[j].level >= level)
            && (at < |types| ==> types[at].level < level)
  {
    at := FirstBelow(types, level);
  }

  /** A move that names no row, a header, or its own place changes nothing. */
  lemma MoveRefused(types: seq<Entry>, from: int, to: int)
    requires !(0 <= from < |types| && 0 <= to < |types| && from != to && types[from].name != [])
    ensures Apply(types, MoveRow(from, to)) == types
  {
  }

  /** Moving rows before another is moving one row, to that place or, from above it, to the one before. */
  lemma MoveRowsIsMove(types: seq<Entry>, source: int, count: int, dest: int)
    ensures Apply(types, MoveRows(source, count, dest)) ==
              if count == 1 && 0 <= dest <= |types|
              then Apply(types, MoveRow(source, if dest <= source then dest else dest - 1))
              else types
  {
    if count == 1 && dest == source + 1 && CanMove(types, source, dest) {
      assert types == types[..source] + [types[source]] + types[source + 1..];
    }
  }

  /** An addition outside the list changes nothing. */
  lemma AddOutsideIsRefused(types: seq<Entry>, row: int, name: Name)
    requires row < 0 || row > |types|
    ensures Apply(types, Add(row, name)) == types
  {
  }

  /** A move changes the level of the moved entry alone and nothing about the others: it takes the level
      of the row it comes to stand below, or at the top that of the first row. */
  lemma MoveChangesOne(types: seq<Entry>, from: nat, to: nat)
    requires from < |types| && to < |types| && from != to && types[from].name != []
    ensures var r := Apply(types, MoveRow(from, to));
            && |r| == |types| && Without(r, to) == Without(types, from)
            && r[to] == Entry(types[from].name, r[if to > 0 then to - 1 else 1].level)
            && r[to].level == types[if from < to then to else if to > 0 then to - 1 else 0].level
  {
    hide With, Without;
    var above := types[if from < to then to else if to > 0 then to - 1 else 0].level;
    WithoutAt(types, from);
    WithWithout(Without(types, from), to, Entry(types[from].name, above));
  }

  lemma WithoutAt(types: seq<Entry>, i: nat)
    requires i < |types|
    ensures |Without(types, i)| == |types| - 1
    ensures forall j :: 0 <= j < i ==> Without(types, i)[j] == types[j]
    ensures forall j :: i < j < |types| ==> Without(types, i)[j - 1] == types[j]
  {
  }

  lemma WithWithout(types: seq<Entry>, at: nat, x: Entry)
    requires at <= |types|
    ensures |With(types, at, x)| == |types| + 1 && With(types, at, x)[at] == x
    ensures Without(With(types, at, x), at) == types
    ensures forall j :: 0 <= j < at ==> With(types, at, x)[j] == types[j]
    ensures forall j :: at <= j < |types| ==> With(types, at, x)[j + 1] == types[j]
  {
    var r := With(types, at, x);
    assert r[..at] == types[..at] && r[at + 1..] == types[at..];
  }

  /** When one named entry gets a new place or level, the events map changes at its name alone. */
  lemma EventsAfter(types: seq<Entry>, i: nat, r: seq<Entry>, k: nat)
    requires NoRepeats(types) && NoRepeats(r) && i < |types| && k < |r|
    requires Without(types, i) == Without(r, k) && types[i].name == r[k].name != []
    ensures EventsOf(r) == if Dotted(r[k].name) then EventsOf(types)[r[k].name := r[k].level] else EventsOf(types)
  {
    hide EventsOf, Without, NoRepeats;
    NamedEvents(types);
    NamedEvents(r);
    WithoutHolds(types, i);
    WithoutHolds(r, k);
    var name := r[k].name;
    var expected := if Dotted(name) then EventsOf(types)[name := r[k].level] else EventsOf(types);
    forall n, l ensures Maps(EventsOf(r), n, l) <==> Maps(expected, n, l) {
      var e := Entry(n, l);
      assert n == name ==> (e in r <==> l == r[k].level);
      assert n != name ==> (e in r <==> e in types);
      assert n != name ==> (Maps(expected, n, l) <==> Maps(EventsOf(types), n, l));
    }
    SameMap(EventsOf(r), expected);
  }

  lemma WithoutHolds(types: seq<Entry>, i: nat)
    requires NoRepeats(types) && i < |types| && types[i].name != []
    ensures NoRepeats(Without(types, i))
    ensures forall e :: e in types <==> e in Without(types, i) || e == types[i]
    ensures forall e :: e in Without(types, i) ==> e.name != types[i].name
  {
    assert types == types[..i] + [types[i]] + types[i + 1..];
  }

  /** The type stands directly below the row already. */
  ghost predicate Below(types: seq<Entry>, row: nat, name: Name) {
    row + 1 < |types| && types[row + 1].name == name
  }

  /** Where an added type ends up: at the row if it came from there or above, otherwise below it. */
  ghost function AddedAt(types: seq<Entry>, row: nat, name: Name): nat {
    if RowOf(types, name) <= row then row else row + 1
  }

  /** Adding a type puts it, or brings it, to the row or directly below it and leaves the others alone. It
      gets the level of the row unless it stood directly below the row with another level: then nothing
      happens. */
  lemma AddTakesLevel(types: seq<Entry>, row: nat, name: Name)
    requires NoRepeats(types) && row < |types| && name != []
    ensures var r, k, i := Apply(types, Add(row, name)), AddedAt(types, row, name), RowOf(types, name);
            && k < |r| && r[k].name == name
            && Without(r, k) == (if i < |types| then Without(types, i) else types)
            && (r[k].level == types[row].level <==>
                  !(Below(types, row, name) && types[row + 1].level != types[row].level))
            && (Below(types, row, name) ==> r == types)
  {
    hide NoRepeats, With, Without, MovedBefore;
    var i := RowOf(types, name);
    if Below(types, row, name) {
      RowIs(types, name, row + 1);
    } else if i == |types| {
      WithWithout(types, row + 1, Entry(name, types[row].level));
    } else if i != row {
      MoveChangesOne(types, i, if i > row then row + 1 else row);
      MoveTakesLevel(types, i, row);
    }
  }

  lemma MoveTakesLevel(types: seq<Entry>, i: nat, row: nat)
    requires i < |types| && row < |types| && i != row && i != row + 1 && types[i].name != []
    ensures var to := if i > row then row + 1 else row;
            to < |types| && Apply(types, MoveRow(i, to))[to] == Entry(types[i].name, types[row].level)
  {
  }

  lemma RowIs(types: seq<Entry>, name: Name, i: nat)
    requires NoRepeats(types) && name != [] && i < |types| && types[i].name == name
    ensures RowOf(types, name) == i
  {
  }

  /** Such a list is soon made: move a type to the top, give a higher level to a new role above it, and
      add the type to that role. */
  lemma AddCanBeIgnored(types: seq<Entry>, level: Level)
    requires Good(types, true) && |types| >= 2 && types[1].name != [] && level > types[0].level
    ensures var name := types[1].name;
            var r := ApplyAll(types, [MoveRow(1, 0), AddRole(level)]);
            |r| >= 2 && r[0] == Entry([], level) && r[1] == Entry(name, types[0].level) && Apply(r, Add(0, name)) == r
  {
    var name, first, second := types[1].name, MoveRow(1, 0), AddRole(level);
    assert [first, second][..1] == [first] && [first][..0] == [];
    var moved := Moved(types, 1, 0);
    assert ApplyAll(types, [first]) == moved;
    MoveChangesOne(types, 1, 0);
    var r := Apply(moved, second);
    assert ApplyAll(types, [first, second]) == r;
    assert FirstBelow(moved, level) == 0;
    EditIsGood(types, first, true);
    EditIsGood(moved, second, true);
    RowIs(r, name, 1);
  }

  /** The events map after each kind of edit. */
  lemma RemoveChangesEvents(types: seq<Entry>, row: nat)
    requires NoRepeats(types) && row < |types| && types[row].name != []
    ensures EventsOf(Apply(types, Remove(row))) == EventsOf(types) - {types[row].name}
  {
    hide EventsOf, Without, NoRepeats;
    NamedEvents(types);
    WithoutHolds(types, row);
    NamedEvents(Without(types, row));
    SameMap(EventsOf(Without(types, row)), EventsOf(types) - {types[row].name});
  }

  lemma AddRoleKeepsEvents(types: seq<Entry>, level: Level)
    requires NoRepeats(types)
    ensures EventsOf(Apply(types, AddRole(level))) == EventsOf(types)
  {
    var r := Apply(types, AddRole(level));
    var at := FirstBelow(types, level);
    assert types == types[..at] + types[at..];
    assert forall e :: e in r <==> e in types || e == Entry([], level);
    assert NoRepeats(r);
    hide EventsOf, NoRepeats, Apply;
    NamedEvents(types);
    NamedEvents(r);
    SameMap(EventsOf(r), EventsOf(types));
  }

  lemma MoveChangesEvents(types: seq<Entry>, from: nat, to: nat)
    requires Good(types, true) && from < |types| && to < |types| && from != to && types[from].name != []
    ensures var name := types[from].name;
            var level := types[if from < to then to else if to > 0 then to - 1 else 0].level;
            EventsOf(Apply(types, MoveRow(from, to))) ==
              if Dotted(name) then EventsOf(types)[name := level] else EventsOf(types)
  {
    hide With, Without, NoRepeats, Descending;
    MoveChangesOne(types, from, to);
    EditIsGood(types, MoveRow(from, to), true);
    EventsAfter(types, from, Moved(types, from, to), to);
  }

  lemma AddChangesEvents(types: seq<Entry>, row: nat, name: Name)
    requires Good(types, true) && row < |types| && name != [] && !Below(types, row, name)
    ensures EventsOf(Apply(types, Add(row, name))) ==
              if Dotted(name) then EventsOf(types)[name := types[row].level] else EventsOf(types)
  {
    AddTakesLevel(types, row, name);
    EditIsGood(types, Add(row, name), true);
    var r, k, i := Added(types, row, name), AddedAt(types, row, name), RowOf(types, name);
    hide EventsOf, Without, NoRepeats, Descending, Added, Apply;
    if i < |types| {
      EventsAfter(types, i, r, k);
    } else {
      EventsWithNew(types, r, k);
    }
  }

  lemma EventsWithNew(types: seq<Entry>, r: seq<Entry>, k: nat)
    requires NoRepeats(types) && NoRepeats(r) && k < |r| && Without(r, k) == types && r[k].name != []
    ensures EventsOf(r) == if Dotted(r[k].name) then EventsOf(types)[r[k].name := r[k].level] else EventsOf(types)
  {
    hide EventsOf, Without, NoRepeats;
    NamedEvents(types);
    NamedEvents(r);
    WithoutHolds(r, k);
    var name := r[k].name;
    var expected := if Dotted(name) then EventsOf(types)[name := r[k].level] else EventsOf(types);
    forall n, l ensures Maps(EventsOf(r), n, l) <==> Maps(expected, n, l) {
      var e := Entry(n, l);
      assert n == name ==> (e in r <==> l == r[k].level);
      assert n != name ==> (Maps(expected, n, l) <==> Maps(EventsOf(types), n, l));
    }
    SameMap(EventsOf(r), expected);
  }

  // The list in place

  class PowerlevelsTypeListModel {
    var types: seq<Entry>

    constructor (p: Levels, creator: Option<Level>)
      ensures IsInitial(types, p, creator)
    {
      var listed := MakeTypes(p, creator);
      types := listed;
    }

    method Remove(row: int) returns (ok: bool)
      modifies this
      ensures types == Apply(old(types), Edit.Remove(row))
      ensures ok <==> 0 <= row < |old(types)| && old(types)[row].name != []
    {
      if row < 0 || row >= |types| || types[row].name == [] {
        return false;
      }
      types := types[..row] + types[row + 1..];
      return true;
    }

    method Add(row: int, name: Name)
      requires Allowed(types, Edit.Add(row, name))
      modifies this
      ensures types == Apply(old(types), Edit.Add(row, name))
    {
      if row < 0 || row > |types| {
        return;
      }
      for i := 0 to |types|
        invariant unchanged(this)
        invariant forall j :: 0 <= j < i ==> types[j].name != name
      {
        if types[i].name == name {
          FirstRow(types, name, i);
          if i > row {
            var _ := Move(i, row + 1);
          } else {
            var _ := Move(i, row);
          }
          return;
        }
      }
      NoRow(types, name);
      types := types[..row + 1] + [Entry(name, types[row].level)] + types[row + 1..];
    }

    method AddRole(level: Level)
      modifies this
      ensures types == Apply(old(types), Edit.AddRole(level))
    {
      for i := 0 to |types|
        invariant unchanged(this)
        invariant forall j :: 0 <= j < i ==> types[j].level >= level
      {
        if types[i].level < level {
          types := types[..i] + [Entry([], level)] + types[i..];
          return;
        }
      }
      types := types + [Entry([], level)];
    }

    method Move(from: int, to: int) returns (ok: bool)
      modifies this
      ensures types == Apply(old(types), MoveRow(from, to))
    {
      if from == to {
        return false;
      }
      var dest := to;
      if from < to {
        dest := dest + 1;
      }
      ok := MoveRows(from, 1, dest);
    }

    method MoveRows(sourceRow: int, count: int, destinationChild: int) returns (ok: bool)
      modifies this
      ensures types == Apply(old(types), Edit.MoveRows(sourceRow, count, destinationChild))
      ensures ok <==>
                sourceRow == destinationChild || (count == 1 && CanMove(old(types), sourceRow, destinationChild))
    {
      if sourceRow == destinationChild {
        return true;
      }
      if count != 1 {
        return false;
      }
      if sourceRow < 0 || sourceRow >= |types| {
        return false;
      }
      if destinationChild < 0 || destinationChild > |types| {
        return false;
      }
      if types[sourceRow].name == [] {
        return false;
      }
      var level := types[if destinationChild > 0 then destinationChild - 1 else 0].level;
      var sourceItem := types[sourceRow].(level := level);
      types := types[..sourceRow] + types[sourceRow + 1..];
      if destinationChild < sourceRow {
        types := types[..destinationChild] + [sourceItem] + types[destinationChild..];
      } else {
        types := types[..destinationChild - 1] + [sourceItem] + types[destinationChild - 1..];
      }
      return true;
    }

    method ToEvents() returns (m: map<Name, Level>)
      ensures m == EventsOf(types)
    {
      m := map[];
      for n := 0 to |types|
        invariant m == EventsOf(types[..n])
      {
        assert types[..n + 1][..n] == types[..n];
        if Dotted(types[n].name) {
          m := m[types[n].name := types[n].level];
        }
      }
      assert types[..|types|] == types;
    }

    /** What the editor takes for one of the six levels that are not of an event type. */
    method LevelOf(name: Name, usersDefault: Level) returns (level: Level)
      ensures level == FirstLevel(types, name, usersDefault)
    {
      for n := 0 to |types|
        invariant FirstLevel(types, name, usersDefault) == FirstLevel(types[n..], name, usersDefault)
      {
        assert types[n..][1..] == types[n + 1..];
        if types[n].name == name {
          return types[n].level;
        }
      }
      level := usersDefault;
    }

    method Perform(edits: seq<Edit>)
      requires RunAllowed(types, edits)
      modifies this
      ensures types == ApplyAll(old(types), edits)
    {
      for n := 0 to |edits|
        invariant types == ApplyAll(old(types), edits[..n])
      {
        assert Allowed(ApplyAll(old(types), edits[..n]), edits[n]);
        assert edits[..n + 1][..n] == edits[..n];
        match edits[n]
        case MoveRow(from, to) => var _ := Move(from, to);
        case MoveRows(source, count, dest) => var _ := MoveRows(source, count, dest);
        case Add(row, name) => Add(row, name);
        case AddRole(level) => AddRole(level);
        case Remove(row) => var _ := Remove(row);
      }
      assert edits[..|edits|] == edits;
    }
  }

  lemma FirstRow(types: seq<Entry>, name: Name, i: nat)
    requires i < |types| && types[i].name == name && forall j :: 0 <= j < i ==> types[j].name != name
    ensures RowOf(types, name) == i
  {
  }

  lemma NoRow(types: seq<Entry>, name: Name)
    requires forall j :: 0 <= j < |types| ==> types[j].name != name
    ensures RowOf(types, name) == |types|
  {
  }
}
