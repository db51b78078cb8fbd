/** What an incremental slot is cut on: the newest entry of its own chain or of its nearest ancestor. */
module Resolve {
  import opened Entries
  import opened Strategies
  import opened Wrappers

  predicate Candidate(e: Entry, strategy: string, slot: nat, atMost: bool) {
    e.strategy == strategy && (e.slot < slot || (atMost && e.slot == slot))
  }

  predicate Better(e: Entry, best: Option<Entry>) {
    best.None? || e.slot > best.value.slot || (e.slot == best.value.slot && e.creationToken > best.value.creationToken)
  }

  /** The newest entry of a strategy before the slot (or at it, with atMost); the first found among equals. */
  function Newest(es: seq<Entry>, strategy: string, slot: nat, atMost: bool): Option<Entry> {
    if es == [] then None
    else
      var best := Newest(es[..|es| - 1], strategy, slot, atMost);
      var e := es[|es| - 1];
      if Candidate(e, strategy, slot, atMost) && Better(e, best) then Some(e) else best
  }

  method NewestEntry(es: seq<Entry>, strategy: string, slot: nat, atMost: bool) returns (best: Option<Entry>)
    ensures best == Newest(es, strategy, slot, atMost)
  {
    best := None;
    for i := 0 to |es|
      invariant best == Newest(es[..i], strategy, slot, atMost)
    {
      assert es[..i + 1][..i] == es[..i];
      var e := es[i];
      if e.strategy != strategy || e.slot > slot || (!atMost && e.slot == slot) {
        continue;
      }
      if Better(e, best) {
        best := Some(e);
      }
    }
    assert es[..|es|] == es;
  }

  /** The newest entry is one of the candidates and no candidate is newer; there is none only without candidates. */
  lemma {:induction false} NewestIsNewest(es: seq<Entry>, strategy: string, slot: nat, atMost: bool)
    ensures var r := Newest(es, strategy, slot, atMost);
      && (r.Some? ==> r.value in es && Candidate(r.value, strategy, slot, atMost))
      && (forall e :: e in es && Candidate(e, strategy, slot, atMost) ==> r.Some? && e.slot <= r.value.slot)
  {
    if es != [] {
      assert es == es[..|es| - 1] + [es[|es| - 1]];
      NewestIsNewest(es[..|es| - 1], strategy, slot, atMost);
    }
  }

  /** e is in the list, of the strategy and before the slot (or at it, with atMost), and no other such entry goes before it: by
      later slot, then by higher token, then by place in the list. */
  ghost predicate IsNewest(es: seq<Entry>, strategy: string, slot: nat, atMost: bool, e: Entry) {
    exists i :: 0 <= i < |es| && es[i] == e && NewestAt(es, strategy, slot, atMost, i)
  }

  ghost predicate NewestAt(es: seq<Entry>, strategy: string, slot: nat, atMost: bool, i: nat)
    requires i < |es|
  {
    && es[i].strategy == strategy && es[i].slot < (if atMost then slot + 1 else slot)
    && forall j :: 0 <= j < |es| && es[j].strategy == strategy && es[j].slot < (if atMost then slot + 1 else slot) ==>
         || es[j].slot < es[i].slot
         || (es[j].slot == es[i].slot && es[j].creationToken < es[i].creationToken)
         || (es[j].slot == es[i].slot && es[j].creationToken == es[i].creationToken && i <= j)
  }

  lemma {:induction false} NewestStands(es: seq<Entry>, strategy: string, slot: nat, atMost: bool)
    ensures var r := Newest(es, strategy, slot, atMost); r.Some? ==> IsNewest(es, strategy, slot, atMost, r.value)
  {
    if es != [] {
      var init, last := es[..|es| - 1], es[|es| - 1];
      NewestStands(init, strategy, slot, atMost);
      NewestIsNewest(init, strategy, slot, atMost);
      var r := Newest(init, strategy, slot, atMost);
      if r == Newest(es, strategy, slot, atMost) && r.Some? {
        var i :| 0 <= i < |init| && init[i] == r.value && NewestAt(init, strategy, slot, atMost, i);
        assert NewestAt(es, strategy, slot, atMost, i);
      } else if Newest(es, strategy, slot, atMost).Some? {
        if r.Some? { NewestBeaten(init, strategy, slot, atMost, last, r.value); }
        assert NewestAt(es, strategy, slot, atMost, |es| - 1);
      }
    }
  }

  lemma NewestBeaten(init: seq<Entry>, strategy: string, slot: nat, atMost: bool, last: Entry, e: Entry)
    requires IsNewest(init, strategy, slot, atMost, e) && Better(last, Some(e))
    ensures forall x :: x in init && Candidate(x, strategy, slot, atMost) ==>
              x.slot < last.slot || (x.slot == last.slot && x.creationToken < last.creationToken)
  {
    var i :| 0 <= i < |init| && init[i] == e && NewestAt(init, strategy, slot, atMost, i);
  }

  /** Of every list: the newest entry is the one that no other goes before. */
  lemma NewestExactly(es: seq<Entry>, strategy: string, slot: nat, atMost: bool, e: Entry)
    ensures Newest(es, strategy, slot, atMost) == Some(e) <==> IsNewest(es, strategy, slot, atMost, e)
  {
    hide Newest;
    NewestStands(es, strategy, slot, atMost);
    NewestIsNewest(es, strategy, slot, atMost);
    if IsNewest(es, strategy, slot, atMost, e) {
      var i :| 0 <= i < |es| && es[i] == e && NewestAt(es, strategy, slot, atMost, i);
      assert Candidate(es[i], strategy, slot, atMost);
      var r := Newest(es, strategy, slot, atMost).value;
      var j :| 0 <= j < |es| && es[j] == r && NewestAt(es, strategy, slot, atMost, j);
    }
  }

  /** The newest entry at or before the slot of the nearest strategy, from `name` up, that has one. */
  function Nearest(es: seq<Entry>, tbl: Table, name: string, slot: nat): Option<Entry>
    requires Acyclic(tbl)
    decreases if name in tbl then Depth(tbl, name) + 1 else 0
  {
    if name == "" || name !in tbl then None
    else
      var e := Newest(es, name, slot, true);
      if e.Some? then e
      else if tbl[name].base == "" then None
      else DepthOfBase(tbl, name); Nearest(es, tbl, tbl[name].base, slot)
  }

  method NewestAncestorEntry(es: seq<Entry>, tbl: Table, s: Strategy, slot: nat) returns (e: Option<Entry>)
    requires Sound(tbl)
    ensures e == Nearest(es, tbl, s.base, slot)
  {
    var name := s.base;
    while name != ""
      invariant Nearest(es, tbl, s.base, slot) == Nearest(es, tbl, name, slot)
      decreases name != "", if name in tbl then Depth(tbl, name) + 1 else 0
    {
      if name !in tbl { return None; }
      e := NewestEntry(es, tbl[name].name, slot, true);
      if e.Some? { return; }
      if tbl[name].base != "" { DepthOfBase(tbl, name); }
      name := tbl[name].base;
    }
    e := None;
  }

  lemma {:induction false} NearestIsAncestor(es: seq<Entry>, tbl: Table, n: string, name: string, slot: nat)
    requires Acyclic(tbl) && n in tbl && tbl[n].base != "" && (name == tbl[n].base || Ancestor(tbl, n, name))
    ensures var r := Nearest(es, tbl, name, slot);
      r.Some? ==> r.value in es && Ancestor(tbl, n, r.value.strategy) && r.value.slot <= slot
    decreases if name in tbl then Depth(tbl, name) + 1 else 0
  {
    if name != "" && name in tbl {
      NewestIsNewest(es, name, slot, true);
      DepthOfBase(tbl, n);
      assert Ancestor(tbl, n, name);
      if Newest(es, name, slot, true).None? && tbl[name].base != "" {
        DepthOfBase(tbl, name);
        AncestorTrans(tbl, n, name, tbl[name].base);
        NearestIsAncestor(es, tbl, n, tbl[name].base, slot);
      }
    }
  }

  /** An entry of any ancestor at or before the slot is enough for there to be a nearest one. */
  lemma {:induction false} NearestFound(es: seq<Entry>, tbl: Table, name: string, slot: nat, e: Entry)
    requires Sound(tbl) && name in tbl && e in es && e.slot <= slot
    requires e.strategy == name || Ancestor(tbl, name, e.strategy)
    ensures Nearest(es, tbl, name, slot).Some?
    decreases Depth(tbl, name)
  {
    NewestIsNewest(es, name, slot, true);
    if e.strategy != name {
      DepthOfBase(tbl, name);
      if Newest(es, name, slot, true).None? {
        NearestFound(es, tbl, tbl[name].base, slot, e);
      }
    }
  }

  /** e is the newest entry at or before the slot of its strategy, and no strategy between n and that one has any. */
  ghost predicate NearestAbove(es: seq<Entry>, tbl: Table, n: string, slot: nat, e: Entry)
    requires Acyclic(tbl)
  {
    && Ancestor(tbl, n, e.strategy) && IsNewest(es, e.strategy, slot, true, e)
    && forall x :: x in es && x.slot <= slot && Ancestor(tbl, n, x.strategy) ==> !Ancestor(tbl, x.strategy, e.strategy)
  }

  lemma NearestTaken(es: seq<Entry>, tbl: Table, n: string, name: string, slot: nat, e: Entry)
    requires Sound(tbl) && n in tbl && tbl[n].base == name && name != "" && Newest(es, name, slot, true) == Some(e)
    ensures NearestAbove(es, tbl, n, slot, e)
    ensures forall x :: NearestAbove(es, tbl, n, slot, x) ==> x == e
  {
    DepthOfBase(tbl, n);
    NewestExactly(es, name, slot, true, e);
    assert e.strategy == name && e in es && e.slot <= slot;
    forall x | x in es && Ancestor(tbl, n, x.strategy) ensures !Ancestor(tbl, x.strategy, name) {
      if Ancestor(tbl, x.strategy, name) {
        AncestorBelow(tbl, x.strategy, name);
        if x.strategy != name { AncestorBelow(tbl, name, x.strategy); }
      }
    }
    forall x | NearestAbove(es, tbl, n, slot, x) ensures x == e {
      assert !Ancestor(tbl, name, x.strategy);
      assert x.strategy == name;
      NewestExactly(es, name, slot, true, x);
    }
  }

  /** What the climb from a strategy's base finds is the newest entry of the first strategy above that has one. */
  lemma {:induction false} NearestExactly(es: seq<Entry>, tbl: Table, n: string, slot: nat, e: Entry)
    requires Sound(tbl) && n in tbl && tbl[n].base != ""
    ensures Nearest(es, tbl, tbl[n].base, slot) == Some(e) <==> NearestAbove(es, tbl, n, slot, e)
    decreases Depth(tbl, n)
  {
    hide IsNewest, Newest;
    var name := tbl[n].base;
    DepthOfBase(tbl, n);
    NewestIsNewest(es, name, slot, true);
    if Newest(es, name, slot, true).Some? {
      NearestTaken(es, tbl, n, name, slot, Newest(es, name, slot, true).value);
    } else {
      NoneOfOwn(es, name, slot);
      if tbl[name].base != "" {
        NearestExactly(es, tbl, name, slot, e);
        assert NearestAbove(es, tbl, n, slot, e) ==> NearestAbove(es, tbl, name, slot, e);
        if NearestAbove(es, tbl, name, slot, e) { AncestorTrans(tbl, n, name, e.strategy); }
      } else {
        assert Ancestor(tbl, n, e.strategy) ==> e.strategy == name || Ancestor(tbl, name, e.strategy);
        assert !Ancestor(tbl, name, e.strategy);
        assert e.strategy == name ==> !IsNewest(es, name, slot, true, e);
      }
    }
  }

  lemma NoneOfOwn(es: seq<Entry>, name: string, slot: nat)
    requires Newest(es, name, slot, true).None?
    ensures forall e :: !IsNewest(es, name, slot, true, e)
    ensures forall e :: e in es && e.slot <= slot ==> e.strategy != name
  {
    NewestIsNewest(es, name, slot, true);
    forall e ensures !IsNewest(es, name, slot, true, e) { NewestExactly(es, name, slot, true, e); }
    forall e | e in es && e.slot <= slot ensures e.strategy != name { assert Candidate(e, e.strategy, slot, true); }
  }

  /** The base of an incremental slot: the strategy's own previous entry while its chain is ahead of the nearest
      ancestor's newest (or the two meet at the slot), otherwise the ancestor's. */
  function BaseFor(s: Strategy, slot: nat, es: seq<Entry>, tbl: Table): Option<Entry>
    requires Acyclic(tbl)
  {
    var ownPrev := Newest(es, s.name, slot, false);
    var base := Nearest(es, tbl, s.base, slot);
    if s.chain && ownPrev.Some? && (base.None? || slot == base.value.slot || ownPrev.value.slot > base.value.slot)
    then ownPrev else base
  }

  /** A cut is always on something earlier: the same chain strictly before, or an ancestor at or before. */
  lemma BaseIsEarlier(s: Strategy, slot: nat, es: seq<Entry>, tbl: Table)
    requires Sound(tbl) && s.name in tbl && tbl[s.name] == s && s.base != ""
    ensures var r := BaseFor(s, slot, es, tbl);
      r.Some? ==> r.value in es && ((s.chain && r.value.strategy == s.name && r.value.slot < slot) ||
                                    (Ancestor(tbl, s.name, r.value.strategy) && r.value.slot <= slot))
  {
    NewestIsNewest(es, s.name, slot, false);
    NearestIsAncestor(es, tbl, s.name, s.base, slot);
  }

  /** A slot is blocked exactly when no ancestor has an entry at or before it and the chain has none before it. */
  lemma BlockedExactly(s: Strategy, slot: nat, es: seq<Entry>, tbl: Table)
    requires Sound(tbl) && s.name in tbl && tbl[s.name] == s && s.base != ""
    ensures BaseFor(s, slot, es, tbl).None? <==>
              (forall e :: e in es ==> !(Ancestor(tbl, s.name, e.strategy) && e.slot <= slot)
                                       && !(s.chain && e.strategy == s.name && e.slot < slot))
  {
    NewestIsNewest(es, s.name, slot, false);
    NearestIsAncestor(es, tbl, s.name, s.base, slot);
    DepthOfBase(tbl, s.name);
    forall e | e in es && Ancestor(tbl, s.name, e.strategy) && e.slot <= slot ensures Nearest(es, tbl, s.base, slot).Some? {
      NearestFound(es, tbl, s.base, slot, e);
    }
  }

  /** Away from the tie instant the cut is on the newer of the two candidates, so it never re-sends what the
      client already has from the newer one. */
  lemma CutOnTheNewer(s: Strategy, slot: nat, es: seq<Entry>, tbl: Table)
    requires Sound(tbl) && s.chain && s.name in tbl && tbl[s.name] == s && s.base != ""
    requires BaseFor(s, slot, es, tbl).Some?
    requires Nearest(es, tbl, s.base, slot).Some? ==> Nearest(es, tbl, s.base, slot).value.slot < slot
    ensures var r := BaseFor(s, slot, es, tbl).value;
      && (forall e :: e in es && e.strategy == s.name && e.slot < slot ==> e.slot <= r.slot)
      && (Nearest(es, tbl, s.base, slot).Some? ==> Nearest(es, tbl, s.base, slot).value.slot <= r.slot)
  {
    NewestIsNewest(es, s.name, slot, false);
  }

  /** At an instant the strategy shares with its nearest ancestor's newest entry, a chain goes on from its own newest entry,
      and not from that one. */
  lemma SharedInstantStaysOnChain(s: Strategy, slot: nat, es: seq<Entry>, tbl: Table, own: Entry, above: Entry)
    requires Sound(tbl) && s.chain && s.name in tbl && tbl[s.name] == s && s.base != ""
    requires IsNewest(es, s.name, slot, false, own) && NearestAbove(es, tbl, s.name, slot, above) && above.slot == slot
    ensures BaseFor(s, slot, es, tbl) == Some(own)
  {
    hide IsNewest, NearestAbove;
    NewestExactly(es, s.name, slot, false, own);
    NearestExactly(es, tbl, s.name, slot, above);
  }

  /** e is the strategy's own newest entry before the slot, and the strategy is a chain with no ancestor's entry at or after
      that one and before the slot; or the nearest ancestor's newest, and that does not hold of any. */
  ghost predicate CutOn(s: Strategy, slot: nat, es: seq<Entry>, tbl: Table, e: Entry)
    requires Acyclic(tbl)
  {
    || (s.chain && IsNewest(es, s.name, slot, false, e)
        && forall b :: NearestAbove(es, tbl, s.name, slot, b) ==> b.slot == slot || b.slot < e.slot)
    || (NearestAbove(es, tbl, s.name, slot, e)
        && (s.chain ==> forall o :: IsNewest(es, s.name, slot, false, o) ==> o.slot <= e.slot < slot))
  }

  /** Of every list, what an incremental slot is cut on. */
  lemma CutExactly(s: Strategy, slot: nat, es: seq<Entry>, tbl: Table, e: Entry)
    requires Sound(tbl) && s.name in tbl && tbl[s.name] == s && s.base != ""
    ensures BaseFor(s, slot, es, tbl) == Some(e) <==> CutOn(s, slot, es, tbl, e)
  {
    hide Newest, Nearest;
    forall x ensures Newest(es, s.name, slot, false) == Some(x) <==> IsNewest(es, s.name, slot, false, x) {
      NewestExactly(es, s.name, slot, false, x);
    }
    forall x ensures Nearest(es, tbl, s.base, slot) == Some(x) <==> NearestAbove(es, tbl, s.name, slot, x) {
      NearestExactly(es, tbl, s.name, slot, x);
    }
    AboveIsAtMost(es, tbl, s.name, slot);
    if IsNewest(es, s.name, slot, false, e) { OwnIsNotAbove(s, slot, es, tbl, e); }
  }

  lemma AboveIsAtMost(es: seq<Entry>, tbl: Table, n: string, slot: nat)
    requires Sound(tbl)
    ensures forall b :: NearestAbove(es, tbl, n, slot, b) ==> b.slot <= slot
  {
  }

  lemma OwnIsNotAbove(s: Strategy, slot: nat, es: seq<Entry>, tbl: Table, e: Entry)
    requires Sound(tbl) && s.name in tbl && IsNewest(es, s.name, slot, false, e)
    ensures !NearestAbove(es, tbl, s.name, slot, e)
  {
    if Ancestor(tbl, s.name, s.name) { AncestorBelow(tbl, s.name, s.name); }
  }

  /** The base link a verdict carries: none for a full, an error when the slot is blocked. */
  function BaseIdFor(s: Strategy, slot: nat, es: seq<Entry>, tbl: Table): Result<EntryId, ()>
    requires Acyclic(tbl)
  {
    if s.kind == Full then Ok(NoId)
    else
      var base := BaseFor(s, slot, es, tbl);
      if base.None? then Err(()) else Ok(base.value.id)
  }
}
