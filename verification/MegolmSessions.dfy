/** Inbound Megolm sessions: what is kept when the same session is offered again and again. */
module MegolmSessions {

  type SessionKey = string

  /** A session as the crypto library unpickles it. */
  datatype Session = Session(firstKnownIndex: nat, pickled: string)

  datatype SessionData = SessionData(messageIndex: nat, trusted: bool, senderKey: string)

  datatype Offer = Offer(session: Session, data: SessionData)

  /** The first offer of those with the lowest index. */
  ghost predicate IsEarliest(offers: seq<Offer>, i: nat) {
    && i < |offers|
    && (forall j :: 0 <= j < |offers| ==> offers[i].session.firstKnownIndex <= offers[j].session.firstKnownIndex)
    && (forall j :: 0 <= j < i ==> offers[i].session.firstKnownIndex < offers[j].session.firstKnownIndex)
  }

  ghost predicate SomeTrusted(offers: seq<Offer>) {
    exists i :: 0 <= i < |offers| && offers[i].data.trusted
  }

  /** The merge of all offers: the session that reaches back furthest, trusted if any of them was, and
      otherwise the data of the first. */
  ghost predicate IsMerge(offers: seq<Offer>, i: nat, session: Session, data: SessionData) {
    && IsEarliest(offers, i) && session == offers[i].session
    && data == SessionData(if i == 0 then offers[0].data.messageIndex else session.firstKnownIndex,
                           SomeTrusted(offers), offers[0].data.senderKey)
  }

  ghost predicate Merges(offers: seq<Offer>, session: Session, data: SessionData) {
    exists i: nat :: IsMerge(offers, i, session, data)
  }

  /** Index and trust depend on what was offered, not on the order. */
  lemma OrderDoesNotMatter(a: seq<Offer>, b: seq<Offer>, s: Session, d: SessionData, s': Session, d': SessionData)
    requires multiset(a) == multiset(b) && Merges(a, s, d) && Merges(b, s', d')
    ensures s.firstKnownIndex == s'.firstKnownIndex && d.trusted == d'.trusted
  {
    var i: nat :| IsMerge(a, i, s, d);
    var j: nat :| IsMerge(b, j, s', d');
    OffersIn(a, b);
    OffersIn(b, a);
    assert a[i] in b && b[j] in a;
  }

  lemma OffersIn(a: seq<Offer>, b: seq<Offer>)
    requires multiset(a) == multiset(b)
    ensures forall o :: o in a ==> o in b
    ensures SomeTrusted(a) ==> SomeTrusted(b)
  {
    forall o | o in a ensures o in b {
      assert o in multiset(b);
    }
    if SomeTrusted(a) {
      var i :| 0 <= i < |a| && a[i].data.trusted;
      assert a[i] in b;
    }
  }

  /** One more offer either reaches back further than all before, or at most adds its trust. */
  lemma MergeStep(offers: seq<Offer>, session: Session, data: SessionData, o: Offer)
    requires Merges(offers, session, data)
    ensures o.session.firstKnownIndex < session.firstKnownIndex ==>
              Merges(offers + [o], o.session, data.(trusted := data.trusted || o.data.trusted,
                                                    messageIndex := o.session.firstKnownIndex))
    ensures o.session.firstKnownIndex >= session.firstKnownIndex ==>
              Merges(offers + [o], session, data.(trusted := data.trusted || o.data.trusted))
  {
    var i: nat :| IsMerge(offers, i, session, data);
    var more := offers + [o];
    TrustGrows(offers, o);
    if o.session.firstKnownIndex < session.firstKnownIndex {
      var merged := data.(trusted := SomeTrusted(more), messageIndex := o.session.firstKnownIndex);
      assert IsMerge(more, |offers|, o.session, merged);
    } else {
      assert IsMerge(more, i, session, data.(trusted := SomeTrusted(more)));
    }
  }

  lemma MergeFirst(o: Offer)
    ensures Merges([] + [o], o.session, o.data)
  {
    var offers := [] + [o];
    assert offers[0] == o && IsMerge(offers, 0, o.session, o.data);
  }

  lemma TrustGrows(offers: seq<Offer>, o: Offer)
    ensures SomeTrusted(offers + [o]) <==> SomeTrusted(offers) || o.data.trusted
  {
    var more := offers + [o];
    if SomeTrusted(offers) {
      var i :| 0 <= i < |offers| && offers[i].data.trusted;
      assert more[i].data.trusted;
    }
    assert more[|offers|] == o;
  }

  ghost function Before(offered: map<SessionKey, seq<Offer>>, key: SessionKey): seq<Offer> {
    if key in offered then offered[key] else []
  }

  class InboundMegolmSessions {
    var sessions: map<SessionKey, Session>
    var sessionsData: map<SessionKey, SessionData>
    /** All that was ever offered. */
    ghost var offered: map<SessionKey, seq<Offer>>

    ghost predicate Valid()
      reads this
    {
      && sessions.Keys == sessionsData.Keys == offered.Keys
      && forall key :: key in sessions ==> Merges(offered[key], sessions[key], sessionsData[key])
    }

    constructor ()
      ensures Valid() && offered == map[]
    {
      sessions, sessionsData, offered := map[], map[], map[];
    }

    method SaveInboundMegolmSession(key: SessionKey, session: Session, data: SessionData)
      requires Valid()
      modifies this
      ensures Valid()
      ensures offered == old(offered)[key := Before(old(offered), key) + [Offer(session, data)]]
    {
      hide Merges;
      ghost var o := Offer(session, data);
      MergeFirst(o);
      offered := offered[key := Before(offered, key) + [o]];
      if key in sessions {
        var newIndex := session.firstKnownIndex;
        var oldIndex := sessions[key].firstKnownIndex;
        MergeStep(old(offered)[key], sessions[key], sessionsData[key], o);
        if key in sessionsData {
          var oldData := sessionsData[key];
          if oldData.trusted && newIndex >= oldIndex {
            return;
          }
          oldData := oldData.(trusted := data.trusted || oldData.trusted);
          if newIndex < oldIndex {
            sessions := sessions[key := session];
            oldData := oldData.(messageIndex := newIndex);
          }
          sessionsData := sessionsData[key := oldData];
          return;
        }
      }
      sessions := sessions[key := session];
      sessionsData := sessionsData[key := data];
    }
  }
}
