/** Reference events: what one log entry says happened to each reference, in the form subscribers receive. */
module Events {
  import opened Wrappers

  datatype Kind = Push | RefUpdate | Compact | Checkpoint | Settings

  datatype Update = Update(name: string, oldOid: string, newOid: string, symbolicTarget: string)

  datatype LogEntry = LogEntry(seqNo: nat, kind: Kind, txn: Option<seq<Update>>, meta: map<string, string>)

  datatype Action = Create | Change | Delete

  datatype RefEvent = RefEvent(action: Action, refType: string, refName: string, old_: string, new_: string,
                               pusher: string, correlationId: string, repo: string, seqNo: nat, entryKind: string)

  /** What is the same for every event of a repository. */
  datatype Source = Source(repo: string, sha256: bool)

  function RefType(name: string): string {
    if |name| >= 11 && name[..11] == "refs/heads/" then "branch"
    else if |name| >= 10 && name[..10] == "refs/tags/" then "tag"
    else ""
  }

  predicate IsZero(oid: string) {
    forall i :: 0 <= i < |oid| ==> oid[i] == '0'
  }

  function OidLength(src: Source): nat {
    if src.sha256 then 64 else 40
  }

  function ZeroOid(n: nat): string {
    seq(n, _ => '0')
  }

  function Normalize(oid: string, n: nat): string {
    if IsZero(oid) then ZeroOid(n) else oid
  }

  function Classify(old_: string, new_: string): Option<Action> {
    if IsZero(old_) && IsZero(new_) then None
    else if IsZero(old_) then Some(Create)
    else if IsZero(new_) then Some(Delete)
    else if old_ == new_ then None
    else Some(Change)
  }

  function WireKind(kind: Kind): Option<string> {
    match kind
    case Push => Some("push")
    case RefUpdate => Some("ref_update")
    case _ => None
  }

  function MetaOf(e: LogEntry, key: string): string {
    if key in e.meta then e.meta[key] else ""
  }

  /** The event of one update, if it makes one: symbolic retargets and changes that change nothing make none. */
  function EventOf(src: Source, e: LogEntry, kind: string, u: Update): seq<RefEvent> {
    var n := OidLength(src);
    var old_, new_ := Normalize(u.oldOid, n), Normalize(u.newOid, n);
    var action := Classify(old_, new_);
    if u.symbolicTarget != "" || action.None? then []
    else [RefEvent(action.value, RefType(u.name), u.name, old_, new_, MetaOf(e, "principal"), MetaOf(e, "request_id"),
                   src.repo, e.seqNo, kind)]
  }

  function EventsOf(src: Source, e: LogEntry, kind: string, updates: seq<Update>): seq<RefEvent> {
    if updates == [] then []
    else EventsOf(src, e, kind, updates[..|updates| - 1]) + EventOf(src, e, kind, updates[|updates| - 1])
  }

  /** The events of one entry: only pushes and reference updates that carry a transaction make any. */
  function EntryEvents(src: Source, e: LogEntry): seq<RefEvent> {
    if e.txn.None? || WireKind(e.kind).None? then []
    else EventsOf(src, e, WireKind(e.kind).value, e.txn.value)
  }

  method EventsFromEntry(src: Source, e: LogEntry) returns (out: seq<RefEvent>)
    ensures out == EntryEvents(src, e)
  {
    out := [];
    if e.txn.None? { return; }
    var kind := "";
    match e.kind {
      case Push => kind := "push";
      case RefUpdate => kind := "ref_update";
      case _ => return;
    }
    var n := OidLength(src);
    var updates := e.txn.value;
    for i := 0 to |updates|
      invariant out == EventsOf(src, e, kind, updates[..i])
    {
      var u := updates[i];
      assert updates[..i + 1][..i] == updates[..i];
      if u.symbolicTarget != "" { continue; }
      var old_, new_ := Normalize(u.oldOid, n), Normalize(u.newOid, n);
      var action := Classify(old_, new_);
      if action.None? { continue; }
      out := out + [RefEvent(action.value, RefType(u.name), u.name, old_, new_, MetaOf(e, "principal"),
                             MetaOf(e, "request_id"), src.repo, e.seqNo, kind)];
    }
    assert updates[..|updates|] == updates;
  }

  // ---- what the events mean for the references ----

  type Refs = map<string, string>

  /** The references after an update of the log. */
  function Updated(refs: Refs, u: Update): Refs {
    if u.symbolicTarget != "" then refs
    else if IsZero(u.newOid) then refs - {u.name}
    else refs[u.name := u.newOid]
  }

  function AllUpdated(refs: Refs, updates: seq<Update>): Refs {
    if updates == [] then refs else Updated(AllUpdated(refs, updates[..|updates| - 1]), updates[|updates| - 1])
  }

  /** The references a subscriber has after an event. */
  function Followed(refs: Refs, e: RefEvent): Refs {
    match e.action
    case Create => refs[e.refName := e.new_]
    case Change => refs[e.refName := e.new_]
    case Delete => refs - {e.refName}
  }

  function AllFollowed(refs: Refs, events: seq<RefEvent>): Refs {
    if events == [] then refs else Followed(AllFollowed(refs, events[..|events| - 1]), events[|events| - 1])
  }

  /** Takes an event back, from what it says the reference was before. */
  function Undone(refs: Refs, e: RefEvent): Refs {
    if e.action.Create? then refs - {e.refName} else refs[e.refName := e.old_]
  }

  function AllUndone(refs: Refs, events: seq<RefEvent>): Refs
    decreases |events|
  {
    if events == [] then refs else AllUndone(Undone(refs, events[|events| - 1]), events[..|events| - 1])
  }

  /** The update was made against these references: its old value is the one they have. */
  predicate OldMatches(refs: Refs, u: Update) {
    u.symbolicTarget != "" || if u.name in refs then u.oldOid == refs[u.name] && !IsZero(u.oldOid) else IsZero(u.oldOid)
  }

  predicate AllOldMatch(refs: Refs, updates: seq<Update>) {
    updates == [] || (AllOldMatch(refs, updates[..|updates| - 1])
                      && OldMatches(AllUpdated(refs, updates[..|updates| - 1]), updates[|updates| - 1]))
  }

  lemma ZeroIsZero(n: nat)
    ensures IsZero(ZeroOid(n)) && |ZeroOid(n)| == n
  {
  }

  /** An update's events do to the references what the update does, exactly when it does not claim a reference that is
      there to be absent and stay so, nor a value the reference does not have to be kept. */
  lemma EventReplaysExactly(src: Source, e: LogEntry, kind: string, u: Update, refs: Refs)
    ensures AllFollowed(refs, EventOf(src, e, kind, u)) == Updated(refs, u) <==>
            (|| u.symbolicTarget != ""
             || ((IsZero(u.oldOid) && IsZero(u.newOid) ==> u.name !in refs)
                 && (!IsZero(u.oldOid) && u.oldOid == u.newOid ==> u.name in refs && refs[u.name] == u.newOid)))
  {
    ZeroIsZero(OidLength(src));
    var es := EventOf(src, e, kind, u);
    if es != [] {
      OneFollowed(refs, es[0]);
      assert es == [es[0]];
    } else if u.symbolicTarget == "" {
      assert u.name in Updated(refs, u) <==> !IsZero(u.newOid);
      if IsZero(u.newOid) && u.name !in refs { assert refs - {u.name} == refs; }
      if u.name in refs && refs[u.name] == u.newOid { assert refs[u.name := u.newOid] == refs; }
    }
  }

  lemma OneFollowed(refs: Refs, e: RefEvent)
    ensures AllFollowed(refs, [e]) == Followed(refs, e)
  {
    assert [e][..0] == [];
  }

  lemma {:induction false} FollowedInTwo(refs: Refs, a: seq<RefEvent>, b: seq<RefEvent>)
    ensures AllFollowed(refs, a + b) == AllFollowed(AllFollowed(refs, a), b)
  {
    if b == [] {
      assert a + b == a;
    } else {
      var n := |b| - 1;
      FollowedInTwo(refs, a, b[..n]);
      assert (a + b)[..|a| + n] == a + b[..n] && (a + b)[|a| + n] == b[n];
    }
  }

  lemma {:induction false} UpdatesReplay(src: Source, e: LogEntry, kind: string, updates: seq<Update>, refs: Refs)
    requires AllOldMatch(refs, updates)
    ensures AllFollowed(refs, EventsOf(src, e, kind, updates)) == AllUpdated(refs, updates)
  {
    if updates != [] {
      var rest, u := updates[..|updates| - 1], updates[|updates| - 1];
      UpdatesReplay(src, e, kind, rest, refs);
      FollowedInTwo(refs, EventsOf(src, e, kind, rest), EventOf(src, e, kind, u));
      EventReplaysExactly(src, e, kind, u, AllUpdated(refs, rest));
    }
  }

  /** Only pushes and reference updates carry a transaction, and it was made against these references. */
  predicate EntryApplies(refs: Refs, e: LogEntry) {
    e.txn.Some? ==> WireKind(e.kind).Some? && AllOldMatch(refs, e.txn.value)
  }

  function EntryApplied(refs: Refs, e: LogEntry): Refs {
    if e.txn.None? then refs else AllUpdated(refs, e.txn.value)
  }

  function LogApplied(refs: Refs, log: seq<LogEntry>): Refs {
    if log == [] then refs else EntryApplied(LogApplied(refs, log[..|log| - 1]), log[|log| - 1])
  }

  predicate LogApplies(refs: Refs, log: seq<LogEntry>) {
    log == [] || (LogApplies(refs, log[..|log| - 1]) && EntryApplies(LogApplied(refs, log[..|log| - 1]), log[|log| - 1]))
  }

  function LogEvents(src: Source, log: seq<LogEntry>): seq<RefEvent> {
    if log == [] then [] else LogEvents(src, log[..|log| - 1]) + EntryEvents(src, log[|log| - 1])
  }

  /** A subscriber who follows the events of a stretch of the log has the references the log itself leads to. */
  lemma {:induction false} EventsReplayLog(src: Source, log: seq<LogEntry>, refs: Refs)
    requires LogApplies(refs, log)
    ensures AllFollowed(refs, LogEvents(src, log)) == LogApplied(refs, log)
  {
    if log != [] {
      var rest, e := log[..|log| - 1], log[|log| - 1];
      EventsReplayLog(src, rest, refs);
      FollowedInTwo(refs, LogEvents(src, rest), EntryEvents(src, e));
      if e.txn.Some? { UpdatesReplay(src, e, WireKind(e.kind).value, e.txn.value, LogApplied(refs, rest)); }
    }
  }

  /** The event says what these references have: the reference absent, or with the event's old value. */
  predicate Fits(refs: Refs, e: RefEvent) {
    if e.action.Create? then e.refName !in refs else e.refName in refs && refs[e.refName] == e.old_
  }

  predicate AllFit(refs: Refs, events: seq<RefEvent>) {
    events == [] || (AllFit(refs, events[..|events| - 1]) && Fits(AllFollowed(refs, events[..|events| - 1]), events[|events| - 1]))
  }

  /** Events that say what the references had, in turn, can be taken back in reverse. */
  lemma {:induction false} FittingUndoes(refs: Refs, events: seq<RefEvent>)
    requires AllFit(refs, events)
    ensures AllUndone(AllFollowed(refs, events), events) == refs
  {
    if events != [] {
      var rest, e := events[..|events| - 1], events[|events| - 1];
      FittingUndoes(refs, rest);
      assert Undone(Followed(AllFollowed(refs, rest), e), e) == AllFollowed(refs, rest);
    }
  }

  lemma FitsOneMore(refs: Refs, events: seq<RefEvent>, e: RefEvent)
    requires AllFit(refs, events) && Fits(AllFollowed(refs, events), e)
    ensures AllFit(refs, events + [e])
  {
    assert (events + [e])[..|events|] == events;
  }

  lemma EventFits(src: Source, e: LogEntry, kind: string, u: Update, refs: Refs, before: seq<RefEvent>)
    requires AllFit(refs, before) && OldMatches(AllFollowed(refs, before), u)
    ensures AllFit(refs, before + EventOf(src, e, kind, u))
  {
    ZeroIsZero(OidLength(src));
    var es := EventOf(src, e, kind, u);
    if es == [] { assert before + es == before; } else { FitsOneMore(refs, before, es[0]); }
  }

  lemma EventsOfStep(src: Source, e: LogEntry, kind: string, updates: seq<Update>)
    requires updates != []
    ensures EventsOf(src, e, kind, updates) ==
            EventsOf(src, e, kind, updates[..|updates| - 1]) + EventOf(src, e, kind, updates[|updates| - 1])
  {
    hide EventOf;
  }

  lemma OldMatchStep(refs: Refs, updates: seq<Update>)
    requires updates != [] && AllOldMatch(refs, updates)
    ensures AllOldMatch(refs, updates[..|updates| - 1])
    ensures OldMatches(AllUpdated(refs, updates[..|updates| - 1]), updates[|updates| - 1])
  {
    hide OldMatches, AllUpdated;
  }

  lemma FitsAfter(src: Source, e: LogEntry, kind: string, u: Update, refs: Refs, before: seq<RefEvent>, done: seq<RefEvent>)
    requires AllFit(refs, before + done) && OldMatches(AllFollowed(AllFollowed(refs, before), done), u)
    ensures AllFit(refs, before + (done + EventOf(src, e, kind, u)))
  {
    hide AllFit, OldMatches, EventOf, AllFollowed;
    FollowedInTwo(refs, before, done);
    EventFits(src, e, kind, u, refs, before + done);
    assert before + done + EventOf(src, e, kind, u) == before + (done + EventOf(src, e, kind, u));
  }

  lemma {:induction false} UpdatesFit(src: Source, e: LogEntry, kind: string, updates: seq<Update>, refs: Refs, before: seq<RefEvent>)
    requires AllFit(refs, before) && AllOldMatch(AllFollowed(refs, before), updates)
    ensures AllFit(refs, before + EventsOf(src, e, kind, updates))
    decreases |updates|
  {
    hide AllFit, AllOldMatch, OldMatches, EventsOf, EventOf, AllFollowed, AllUpdated;
    if updates == [] {
      NoEvents(src, e, kind);
      assert before + [] == before;
    } else {
      var rest, u := updates[..|updates| - 1], updates[|updates| - 1];
      OldMatchStep(AllFollowed(refs, before), updates);
      UpdatesFit(src, e, kind, rest, refs, before);
      UpdatesReplay(src, e, kind, rest, AllFollowed(refs, before));
      FitsAfter(src, e, kind, u, refs, before, EventsOf(src, e, kind, rest));
      EventsOfStep(src, e, kind, updates);
    }
  }

  lemma NoEvents(src: Source, e: LogEntry, kind: string)
    ensures EventsOf(src, e, kind, []) == []
  {
  }

  lemma {:induction false} LogFits(src: Source, log: seq<LogEntry>, refs: Refs)
    requires LogApplies(refs, log)
    ensures AllFit(refs, LogEvents(src, log))
  {
    if log != [] {
      var rest, e := log[..|log| - 1], log[|log| - 1];
      LogFits(src, rest, refs);
      EventsReplayLog(src, rest, refs);
      if e.txn.Some? { UpdatesFit(src, e, WireKind(e.kind).value, e.txn.value, refs, LogEvents(src, rest)); }
      else { assert LogEvents(src, log) == LogEvents(src, rest) + [] == LogEvents(src, rest); }
    }
  }

  /** Nothing is lost backwards either: taking the events back in reverse gives the references there were before. */
  lemma EventsUndoLog(src: Source, log: seq<LogEntry>, refs: Refs)
    requires LogApplies(refs, log)
    ensures AllUndone(LogApplied(refs, log), LogEvents(src, log)) == refs
  {
    EventsReplayLog(src, log, refs);
    LogFits(src, log, refs);
    FittingUndoes(refs, LogEvents(src, log));
  }

  /** Every event of an entry carries the entry's number. */
  lemma {:induction false} EventsCarrySeq(src: Source, e: LogEntry, kind: string, updates: seq<Update>)
    ensures forall i :: 0 <= i < |EventsOf(src, e, kind, updates)| ==> EventsOf(src, e, kind, updates)[i].seqNo == e.seqNo
  {
    if updates != [] { EventsCarrySeq(src, e, kind, updates[..|updates| - 1]); }
  }

  // ---- what one event says ----

  /** A value of the reference's state: absent values are written as zeros of the repository's length. */
  ghost predicate Written(oid: string, wire: string, src: Source) {
    if exists i :: 0 <= i < |oid| && oid[i] != '0' then wire == oid
    else |wire| == (if src.sha256 then 64 else 40) && forall i :: 0 <= i < |wire| ==> wire[i] == '0'
  }

  ghost predicate Present(oid: string) {
    exists i :: 0 <= i < |oid| && oid[i] != '0'
  }

  /** The event an update makes: what happened, to which reference, from and to what, who pushed it and with which request, in
      which repository and entry. */
  ghost predicate SaysOf(src: Source, e: LogEntry, kind: string, u: Update, ev: RefEvent) {
    && u.symbolicTarget == ""
    && (match ev.action
        case Create => !Present(u.oldOid) && Present(u.newOid)
        case Delete => Present(u.oldOid) && !Present(u.newOid)
        case Change => Present(u.oldOid) && Present(u.newOid) && u.oldOid != u.newOid)
    && Written(u.oldOid, ev.old_, src) && Written(u.newOid, ev.new_, src)
    && ev.refName == u.name
    && (ev.refType == "branch" <==> |u.name| >= 11 && u.name[..11] == "refs/heads/")
    && (ev.refType == "tag" <==> |u.name| >= 10 && u.name[..10] == "refs/tags/")
    && (ev.refType == "branch" || ev.refType == "tag" || ev.refType == "")
    && (if "principal" in e.meta then ev.pusher == e.meta["principal"] else ev.pusher == "")
    && (if "request_id" in e.meta then ev.correlationId == e.meta["request_id"] else ev.correlationId == "")
    && ev.repo == src.repo && ev.seqNo == e.seqNo && ev.entryKind == kind
  }

  lemma PresentExactly(oid: string)
    ensures Present(oid) <==> !IsZero(oid)
  {
  }

  lemma WrittenExactly(oid: string, wire: string, src: Source)
    ensures Written(oid, wire, src) <==> wire == Normalize(oid, OidLength(src))
  {
    var z := ZeroOid(OidLength(src));
    if IsZero(oid) && |wire| == |z| && forall i :: 0 <= i < |wire| ==> wire[i] == '0' { assert wire == z; }
  }

  lemma ZerosStayZero(oid: string, n: nat)
    ensures IsZero(Normalize(oid, n)) <==> IsZero(oid)
  {
    ZeroIsZero(n);
  }

  lemma TypeExactly(name: string, t: string)
    ensures RefType(name) == t <==>
              && (t == "branch" <==> |name| >= 11 && name[..11] == "refs/heads/")
              && (t == "tag" <==> |name| >= 10 && name[..10] == "refs/tags/")
              && (t == "branch" || t == "tag" || t == "")
  {
    if |name| >= 11 && name[..11] == "refs/heads/" { assert name[..10][5] == 'h'; assert "refs/tags/"[5] == 't'; }
  }

  lemma EventExactly(src: Source, e: LogEntry, kind: string, u: Update, ev: RefEvent)
    ensures EventOf(src, e, kind, u) == [ev] <==> SaysOf(src, e, kind, u, ev)
  {
    hide IsZero, Normalize, RefType, OidLength, Present, Written;
    var n := OidLength(src);
    PresentExactly(u.oldOid);
    PresentExactly(u.newOid);
    ZerosStayZero(u.oldOid, n);
    ZerosStayZero(u.newOid, n);
    WrittenExactly(u.oldOid, ev.old_, src);
    WrittenExactly(u.newOid, ev.new_, src);
    TypeExactly(u.name, ev.refType);
    NormalizedSame(u.oldOid, u.newOid, n);
  }

  lemma NormalizedSame(a: string, b: string, n: nat)
    ensures !IsZero(a) && !IsZero(b) ==> Normalize(a, n) == a && Normalize(b, n) == b
  {
  }

  /** An entry's events are exactly what its updates say, if it is a push or an update of references. */
  lemma {:induction false} EntryEventsExactly(src: Source, e: LogEntry, ev: RefEvent)
    ensures ev in EntryEvents(src, e) <==>
              && e.txn.Some? && (e.kind == Push || e.kind == RefUpdate)
              && exists u :: u in e.txn.value && SaysOf(src, e, if e.kind == Push then "push" else "ref_update", u, ev)
  {
    hide SaysOf;
    if e.txn.Some? && WireKind(e.kind).Some? { EventsExactly(src, e, WireKind(e.kind).value, e.txn.value, ev); }
  }

  lemma {:induction false} EventsExactly(src: Source, e: LogEntry, kind: string, updates: seq<Update>, ev: RefEvent)
    ensures ev in EventsOf(src, e, kind, updates) <==> exists u :: u in updates && SaysOf(src, e, kind, u, ev)
  {
    hide SaysOf, EventOf;
    if updates != [] {
      var init, last := updates[..|updates| - 1], updates[|updates| - 1];
      assert updates == init + [last];
      EventsExactly(src, e, kind, init, ev);
      OneEventAtMost(src, e, kind, last, ev);
      EventExactly(src, e, kind, last, ev);
    }
  }

  lemma OneEventAtMost(src: Source, e: LogEntry, kind: string, u: Update, ev: RefEvent)
    ensures ev in EventOf(src, e, kind, u) <==> EventOf(src, e, kind, u) == [ev]
  {
  }
}
