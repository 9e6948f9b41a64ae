/** The handler of the inline "confirm"/"cancel" buttons: the checks that
    reject a confirmation, the claim it commits, and the allocation of a
    gift partner and a colour token. Here it is a function from the
    registry before the callback to the reply and the registry after it;
    the class in bot.dfy performs the same step by updating its fields in
    place. `random.choice` is modelled by the pick indices `tPick` (into the
    candidate list) and `cPick` (into the colour pool): every lemma holds for
    every pick in range. */
module Confirmation {
  import opened Roster
  import opened Text
  import opened Queries

  // ---------------------------------------------------------------------
  // Callback data

  /** `action, name = data.split('|')`: it fails exactly when the callback
      does not hold exactly one '|', and otherwise gives the two '|'-free
      pieces around it. */
  function ParseCallback(cb: string): (r: Option<(string, string)>)
    ensures r.None? <==> Bars(cb) != 1
    ensures r.Some? ==> cb == r.value.0 + "|" + r.value.1 && '|' !in r.value.0 && '|' !in r.value.1
  {
    var parts := Split(cb);
    if |parts| == 2 then
      assert Join(parts[1..]) == parts[1];
      Some((parts[0], parts[1]))
    else None
  }

  /** The callback parses into (action, name) exactly when it is action, one
      '|' and name, neither of which contains '|'. */
  lemma ParseCallbackIff(cb: string, action: string, name: string)
    ensures ParseCallback(cb) == Some((action, name)) <==>
            cb == action + "|" + name && '|' !in action && '|' !in name
  {
    if cb == action + "|" + name && '|' !in action && '|' !in name {
      SplitAfterPiece(action, name);
      SplitWithoutBars(name);
    }
  }

  // ---------------------------------------------------------------------
  // The step

  datatype Reply =
    | MalformedData
    | NameNotFound
    | AlreadyHolds(existing: string)
    | TakenByOther
    | NothingToAssign
    | Assigned(target: string, color: string)
    | Cancelled
    | UnknownAction(action: string)

  /** Whether the reply belongs to a confirmation that committed its claim. */
  predicate Committed(r: Reply) {
    r.NothingToAssign? || r.Assigned?
  }

  /** The outcome of the checks before any write: a reply that ends the
      handler, or the index and name of the participant to claim. */
  datatype Screening = Halt(reply: Reply) | Proceed(index: nat, name: string)

  function Screen(d: Data, cb: string, actor: UserId): (s: Screening)
    ensures s.Proceed? ==> s.index < |d.participants| && d.participants[s.index].name == s.name
    ensures s.Halt? ==> !Committed(s.reply)
  {
    var ps := d.participants;
    match ParseCallback(cb)
    case None => Halt(MalformedData)
    case Some((action, name)) =>
      match FindByName(ps, name)
      case None => Halt(NameNotFound)
      case Some(i) =>
        if action == "confirm" then
          match FindByUser(ps, actor)
          case Some(j) => Halt(AlreadyHolds(ps[j].name))
          case None =>
            if ps[i].approved && ps[i].userId != Some(actor) then Halt(TakenByOther)
            else Proceed(i, name)
        else if action == "cancel" then Halt(Cancelled)
        else Halt(UnknownAction(action))
  }

  /** Lines 190-191, the claim of participant `i` by `actor`: it becomes
      approved and held by the actor; no other field and no other participant
      changes, and neither does the pool. */
  function Claimed(d: Data, i: nat, actor: UserId): (r: Data)
    requires i < |d.participants|
    ensures |r.participants| == |d.participants| && r.colors == d.colors
    ensures r.participants[i].approved && r.participants[i].userId == Some(actor)
    ensures forall k :: 0 <= k < |d.participants| ==>
      && r.participants[k].name == d.participants[k].name
      && r.participants[k].assignedTo == d.participants[k].assignedTo
      && r.participants[k].color == d.participants[k].color
    ensures forall k :: 0 <= k < |d.participants| && k != i ==> r.participants[k] == d.participants[k]
  {
    var ps := d.participants;
    d.(participants := ps[i := ps[i].(approved := true, userId := Some(actor))])
  }

  /** Who can still be drawn as a partner of `name`: exactly the participants
      with another name whose `assignedTo` is unset or empty, in roster order. */
  function Candidates(ps: seq<Participant>, name: string): (c: seq<nat>)
    ensures forall j :: 0 <= j < |c| ==> c[j] < |ps|
    ensures forall j, j' :: 0 <= j < j' < |c| ==> c[j] < c[j']
    ensures forall k :: 0 <= k < |ps| ==> (k in c <==> ps[k].name != name && !Present(ps[k].assignedTo))
  {
    var keep := (p: Participant) => p.name != name && !Present(p.assignedTo);
    var c := IndicesWhere(ps, keep);
    assert forall k :: 0 <= k < |ps| ==> (k in c <==> ps[k].name != name && !Present(ps[k].assignedTo)) by {
      forall k | 0 <= k < |ps| ensures k in c <==> ps[k].name != name && !Present(ps[k].assignedTo) {
        if k in c {
          var j :| 0 <= j < |c| && c[j] == k;
          assert keep(ps[c[j]]);
        } else {
          assert !keep(ps[k]);
        }
      }
    }
    c
  }

  /** `s.index(x)`: the position of the first occurrence of `x`. */
  function FirstIndex(s: seq<string>, x: string): (k: nat)
    requires x in s
    ensures k < |s| && s[k] == x && x !in s[..k]
  {
    if s[0] == x then 0
    else
      var k := FirstIndex(s[1..], x);
      assert s[..k + 1] == [s[0]] + s[1..][..k];
      k + 1
  }

  /** Dropping position `k` removes one copy of `s[k]`. */
  lemma DropAtCount(s: seq<string>, k: nat)
    requires k < |s|
    ensures multiset(s[..k] + s[k + 1..]) == multiset(s) - multiset{s[k]}
  {
    assert s == s[..k] + [s[k]] + s[k + 1..];
    assert multiset(s) == multiset(s[..k]) + multiset{s[k]} + multiset(s[k + 1..]);
  }

  /** Dropping position `k` from distinct tokens keeps them distinct and
      removes `s[k]` altogether. */
  lemma DropAtDistinct(s: seq<string>, k: nat)
    requires k < |s|
    ensures Distinct(s) ==> Distinct(s[..k] + s[k + 1..]) && s[k] !in s[..k] + s[k + 1..]
  {
    var r := s[..k] + s[k + 1..];
    if !Distinct(s) { return; }
    forall j | 0 <= j < |r| ensures r[j] == s[if j < k then j else j + 1] {
    }
    forall a, b | 0 <= a < b < |r| ensures r[a] != r[b] {
      assert r[a] == s[if a < k then a else a + 1];
      assert r[b] == s[if b < k then b else b + 1];
    }
    forall j | 0 <= j < |r| ensures r[j] != s[k] {
      assert r[j] == s[if j < k then j else j + 1];
    }
  }

  /** `s.remove(x)`: drops the first copy of `x` and keeps every other token in
      order; when the tokens are distinct, `x` is gone afterwards. */
  function RemoveFirst(s: seq<string>, x: string): (r: seq<string>)
    requires x in s
    ensures exists k :: 0 <= k < |s| && s[k] == x && x !in s[..k] && r == s[..k] + s[k + 1..]
    ensures |r| == |s| - 1
    ensures multiset(r) == multiset(s) - multiset{x}
    ensures Distinct(s) ==> Distinct(r) && x !in r
  {
    var k := FirstIndex(s, x);
    DropAtCount(s, k);
    DropAtDistinct(s, k);
    s[..k] + s[k + 1..]
  }

  /** Removing the first token of the pool leaves the rest of it. */
  lemma RemoveFirstOfHead(s: seq<string>)
    requires s != []
    ensures RemoveFirst(s, s[0]) == s[1..]
  {
    assert FirstIndex(s, s[0]) == 0;
  }

  /** Lines 212-219: the target gets the confirmer's name and the colour, the
      colour leaves the pool, and the confirmer gets the target's name and the
      same colour; the two participants are written and nobody else. */
  function Allocate(d: Data, i: nat, name: string, t: nat, token: string): (r: Data)
    requires i < |d.participants| && t < |d.participants| && i != t && token in d.colors
    ensures var ps, after := d.participants, r.participants;
      && |after| == |ps|
      && after[t] == ps[t].(assignedTo := Some(name), color := Some(token))
      && after[i] == ps[i].(assignedTo := Some(ps[t].name), color := Some(token))
      && forall k :: 0 <= k < |ps| && k != i && k != t ==> after[k] == ps[k]
    ensures r.colors == RemoveFirst(d.colors, token)
  {
    var ps := d.participants;
    var ps1 := ps[t := ps[t].(assignedTo := Some(name), color := Some(token))];
    var ps2 := ps1[i := ps1[i].(assignedTo := Some(ps1[t].name), color := Some(token))];
    Data(ps2, RemoveFirst(d.colors, token))
  }

  /** The picks are in range whenever the handler reaches `random.choice`. */
  predicate PicksInRange(d: Data, cb: string, actor: UserId, tPick: nat, cPick: nat) {
    match Screen(d, cb, actor)
    case Halt(_) => true
    case Proceed(i, name) =>
      var cands := Candidates(Claimed(d, i, actor).participants, name);
      |cands| == 0 || |d.colors| == 0 || (tPick < |cands| && cPick < |d.colors|)
  }

  /** Requiring picks in range excludes no registry and no callback: the
      first candidate and the first token are always valid picks, as any
      choice `random.choice` makes from a non-empty list is. */
  lemma PicksAlwaysExist(d: Data, cb: string, actor: UserId)
    ensures PicksInRange(d, cb, actor, 0, 0)
    ensures forall tPick: nat, cPick: nat ::
      (match Screen(d, cb, actor)
       case Halt(_) => true
       case Proceed(i, name) =>
         tPick < |Candidates(d.participants, name)| && cPick < |d.colors|)
      ==> PicksInRange(d, cb, actor, tPick, cPick)
  {
    match Screen(d, cb, actor)
    case Halt(_) =>
    case Proceed(i, name) =>
      CandidatesIgnoreClaim(d, i, actor, name);
  }

  /** One callback: the reply and the registry afterwards. Only a committed
      claim changes the registry, and the roster itself never changes. */
  function Confirm(d: Data, cb: string, actor: UserId, tPick: nat, cPick: nat): (res: (Reply, Data))
    requires PicksInRange(d, cb, actor, tPick, cPick)
    ensures !Committed(res.0) ==> res.1 == d
    ensures |res.1.participants| == |d.participants|
    ensures forall k :: 0 <= k < |d.participants| ==> res.1.participants[k].name == d.participants[k].name
  {
    match Screen(d, cb, actor)
    case Halt(reply) => (reply, d)
    case Proceed(i, name) =>
      var d1 := Claimed(d, i, actor);
      var cands := Candidates(d1.participants, name);
      if |cands| == 0 || |d1.colors| == 0 then (NothingToAssign, d1)
      else
        var t := cands[tPick];
        var token := d1.colors[cPick];
        (Assigned(d1.participants[t].name, token), Allocate(d1, i, name, t, token))
  }

  // ---------------------------------------------------------------------
  // Helpers about the searches

  /** The claim writes only fields the candidate filter does not read. */
  lemma CandidatesIgnoreClaim(d: Data, i: nat, actor: UserId, name: string)
    requires i < |d.participants|
    ensures Candidates(Claimed(d, i, actor).participants, name) == Candidates(d.participants, name)
  {
    var keep := (p: Participant) => p.name != name && !Present(p.assignedTo);
    IndicesWhereAgree(Claimed(d, i, actor).participants, keep, d.participants, keep);
  }

  /** The checks let a confirmation through exactly when the callback is
      "confirm|name", the first participant called `name` is `i`, the actor
      holds nothing and `i` is unapproved. */
  lemma ScreenProceeds(d: Data, cb: string, actor: UserId, name: string, i: nat)
    requires ParseCallback(cb) == Some(("confirm", name))
    requires i < |d.participants| && d.participants[i].name == name
    requires forall k :: 0 <= k < i ==> d.participants[k].name != name
    ensures Screen(d, cb, actor).Proceed? <==> !Holds(d.participants, actor) && !d.participants[i].approved
    ensures Screen(d, cb, actor).Proceed? ==> Screen(d, cb, actor) == Proceed(i, name)
  {
    if !Holds(d.participants, actor) && d.participants[i].approved {
      assert d.participants[i].userId != Some(actor);
    }
  }

  // ---------------------------------------------------------------------
  // Rejections (lines 154-187, 227-232)

  /** A callback that does not hold exactly one '|' is rejected, unchanged. */
  lemma MalformedCallbackRejected(d: Data, cb: string, actor: UserId, tPick: nat, cPick: nat)
    requires Bars(cb) != 1
    ensures PicksInRange(d, cb, actor, tPick, cPick)
    ensures Confirm(d, cb, actor, tPick, cPick) == (MalformedData, d)
  {
  }

  /** A name missing from the roster is rejected, unchanged, whatever the action. */
  lemma UnknownNameRejected(d: Data, action: string, name: string, actor: UserId, tPick: nat, cPick: nat)
    requires '|' !in action && '|' !in name
    requires forall k :: 0 <= k < |d.participants| ==> d.participants[k].name != name
    ensures PicksInRange(d, action + "|" + name, actor, tPick, cPick)
    ensures Confirm(d, action + "|" + name, actor, tPick, cPick) == (NameNotFound, d)
  {
    ParseCallbackIff(action + "|" + name, action, name);
  }

  /** An actor who already holds a participant cannot confirm another (or the
      same) one: the reply names the held participant and nothing changes. */
  lemma DuplicateActorRejected(d: Data, name: string, actor: UserId, tPick: nat, cPick: nat)
    requires '|' !in name
    requires exists k :: 0 <= k < |d.participants| && d.participants[k].name == name
    requires Holds(d.participants, actor)
    ensures PicksInRange(d, ConfirmData(name), actor, tPick, cPick)
    ensures var res := Confirm(d, ConfirmData(name), actor, tPick, cPick);
      && res.1 == d
      && res.0.AlreadyHolds?
      && exists j :: 0 <= j < |d.participants| && d.participants[j].userId == Some(actor)
                     && d.participants[j].name == res.0.existing
  {
    var cb := ConfirmData(name);
    ParseCallbackIff(cb, "confirm", name);
    var j := FindByUser(d.participants, actor).value;
    assert Screen(d, cb, actor) == Halt(AlreadyHolds(d.participants[j].name));
  }

  /** A name approved by someone else is rejected, unchanged. Because the actor
      holds nothing at this point, the `user_id != actor` half of the check is
      always true: the check is just "approved". */
  lemma TakenByOtherRejected(d: Data, name: string, actor: UserId, i: nat, tPick: nat, cPick: nat)
    requires '|' !in name
    requires i < |d.participants| && d.participants[i].name == name
    requires forall k :: 0 <= k < i ==> d.participants[k].name != name
    requires !Holds(d.participants, actor) && d.participants[i].approved
    ensures d.participants[i].userId != Some(actor)
    ensures PicksInRange(d, ConfirmData(name), actor, tPick, cPick)
    ensures Confirm(d, ConfirmData(name), actor, tPick, cPick) == (TakenByOther, d)
  {
    ParseCallbackIff(ConfirmData(name), "confirm", name);
    ScreenProceeds(d, ConfirmData(name), actor, name, i);
  }

  /** "cancel" and any other action on a known name change nothing. */
  lemma OtherActionsChangeNothing(d: Data, action: string, name: string, actor: UserId, tPick: nat, cPick: nat)
    requires '|' !in action && '|' !in name && action != "confirm"
    requires exists k :: 0 <= k < |d.participants| && d.participants[k].name == name
    ensures PicksInRange(d, action + "|" + name, actor, tPick, cPick)
    ensures Confirm(d, action + "|" + name, actor, tPick, cPick) ==
            (if action == "cancel" then Cancelled else UnknownAction(action), d)
  {
    ParseCallbackIff(action + "|" + name, action, name);
  }

  // ---------------------------------------------------------------------
  // The committed claim (lines 190-191)

  /** A confirmation commits exactly when the actor holds nothing and the
      named participant is unapproved; then that participant is approved and
      held by the actor, and the actor holds no other participant. */
  lemma ClaimCommitted(d: Data, name: string, actor: UserId, i: nat, tPick: nat, cPick: nat)
    requires '|' !in name
    requires i < |d.participants| && d.participants[i].name == name
    requires forall k :: 0 <= k < i ==> d.participants[k].name != name
    requires PicksInRange(d, ConfirmData(name), actor, tPick, cPick)
    ensures var res := Confirm(d, ConfirmData(name), actor, tPick, cPick);
      Committed(res.0) <==> !Holds(d.participants, actor) && !d.participants[i].approved
    ensures var res := Confirm(d, ConfirmData(name), actor, tPick, cPick);
      Committed(res.0) ==>
        && res.1.participants[i].approved
        && res.1.participants[i].userId == Some(actor)
        && forall k :: 0 <= k < |res.1.participants| ==>
             (res.1.participants[k].userId == Some(actor) <==> k == i)
  {
    ParseCallbackIff(ConfirmData(name), "confirm", name);
    ScreenProceeds(d, ConfirmData(name), actor, name, i);
  }

  /** Every committed claim keeps the actor's claims unique: the actor ends up
      holding exactly one participant. */
  lemma CommitLeavesOneClaim(d: Data, cb: string, actor: UserId, tPick: nat, cPick: nat)
    requires PicksInRange(d, cb, actor, tPick, cPick)
    requires Committed(Confirm(d, cb, actor, tPick, cPick).0)
    ensures !Holds(d.participants, actor)
    ensures var after := Confirm(d, cb, actor, tPick, cPick).1.participants;
      exists i :: 0 <= i < |after| && after[i].userId == Some(actor) && after[i].approved
                  && forall k :: 0 <= k < |after| && after[k].userId == Some(actor) ==> k == i
  {
    match Screen(d, cb, actor)
    case Proceed(i, name) =>
      var after := Confirm(d, cb, actor, tPick, cPick).1.participants;
      assert after[i].userId == Some(actor);
  }

  // ---------------------------------------------------------------------
  // Allocation (lines 195-219)

  /** A confirmation allocates exactly when it commits and there is both a
      candidate and a colour left. */
  lemma AllocationHappens(d: Data, name: string, actor: UserId, i: nat, tPick: nat, cPick: nat)
    requires '|' !in name
    requires i < |d.participants| && d.participants[i].name == name
    requires forall k :: 0 <= k < i ==> d.participants[k].name != name
    requires PicksInRange(d, ConfirmData(name), actor, tPick, cPick)
    ensures Confirm(d, ConfirmData(name), actor, tPick, cPick).0.Assigned? <==>
              !Holds(d.participants, actor) && !d.participants[i].approved
              && |Candidates(d.participants, name)| > 0 && |d.colors| > 0
    ensures Confirm(d, ConfirmData(name), actor, tPick, cPick).0.Assigned? ==>
              tPick < |Candidates(d.participants, name)| && cPick < |d.colors|
  {
    ParseCallbackIff(ConfirmData(name), "confirm", name);
    ScreenProceeds(d, ConfirmData(name), actor, name, i);
    CandidatesIgnoreClaim(d, i, actor, name);
  }

  /** Once the checks pass and there is a candidate and a token, the step is
      the claim followed by Allocate with the picked candidate and token. */
  lemma ConfirmOnProceed(d: Data, cb: string, actor: UserId, i: nat, name: string, tPick: nat, cPick: nat)
    requires PicksInRange(d, cb, actor, tPick, cPick)
    requires Screen(d, cb, actor) == Proceed(i, name)
    requires |Candidates(d.participants, name)| > 0 && |d.colors| > 0
    ensures tPick < |Candidates(d.participants, name)| && cPick < |d.colors|
    ensures var t := Candidates(d.participants, name)[tPick];
      && t < |d.participants| && d.participants[t].name != name && !Present(d.participants[t].assignedTo)
      && Confirm(d, cb, actor, tPick, cPick) ==
         (Assigned(d.participants[t].name, d.colors[cPick]),
          Allocate(Claimed(d, i, actor), i, name, t, d.colors[cPick]))
  {
    CandidatesIgnoreClaim(d, i, actor, name);
  }

  /** The same, for the callback "confirm|name" of the first `name` in the roster. */
  lemma ConfirmAllocates(d: Data, name: string, actor: UserId, i: nat, tPick: nat, cPick: nat)
    requires '|' !in name
    requires i < |d.participants| && d.participants[i].name == name
    requires forall k :: 0 <= k < i ==> d.participants[k].name != name
    requires PicksInRange(d, ConfirmData(name), actor, tPick, cPick)
    requires !Holds(d.participants, actor) && !d.participants[i].approved
    requires |Candidates(d.participants, name)| > 0 && |d.colors| > 0
    ensures tPick < |Candidates(d.participants, name)| && cPick < |d.colors|
    ensures var t := Candidates(d.participants, name)[tPick];
      && t < |d.participants| && d.participants[t].name != name && !Present(d.participants[t].assignedTo)
      && Confirm(d, ConfirmData(name), actor, tPick, cPick) ==
         (Assigned(d.participants[t].name, d.colors[cPick]),
          Allocate(Claimed(d, i, actor), i, name, t, d.colors[cPick]))
  {
    var cb := ConfirmData(name);
    ParseCallbackIff(cb, "confirm", name);
    ScreenProceeds(d, cb, actor, name, i);
    ConfirmOnProceed(d, cb, actor, i, name, tPick, cPick);
  }

  /** What a successful allocation writes: the target is an unassigned other
      participant; it gets the confirmer's name and the colour, the confirmer
      gets the target's name and the same colour, the colour leaves the pool
      by `list.remove`, and no other participant changes. */
  lemma AllocationWrites(d: Data, name: string, actor: UserId, i: nat, tPick: nat, cPick: nat)
    requires '|' !in name
    requires i < |d.participants| && d.participants[i].name == name
    requires forall k :: 0 <= k < i ==> d.participants[k].name != name
    requires PicksInRange(d, ConfirmData(name), actor, tPick, cPick)
    requires !Holds(d.participants, actor) && !d.participants[i].approved
    requires tPick < |Candidates(d.participants, name)| && cPick < |d.colors|
    ensures var res := Confirm(d, ConfirmData(name), actor, tPick, cPick);
      var ps, after := d.participants, res.1.participants;
      var t := Candidates(ps, name)[tPick];
      var token := d.colors[cPick];
      && t < |ps| && t != i
      && ps[t].name != name && !Present(ps[t].assignedTo)
      && res.0 == Assigned(ps[t].name, token)
      && after[t] == ps[t].(assignedTo := Some(name), color := Some(token))
      && after[i] == ps[i].(approved := true, userId := Some(actor),
                            assignedTo := Some(ps[t].name), color := Some(token))
      && (forall k :: 0 <= k < |ps| && k != i && k != t ==> after[k] == ps[k])
      && res.1.colors == RemoveFirst(d.colors, token)
  {
    ConfirmAllocates(d, name, actor, i, tPick, cPick);
  }

  /** Neither of the two `assignedTo` fields an allocation writes names its own
      participant. */
  lemma NewAssignmentsNotSelf(d: Data, cb: string, actor: UserId, tPick: nat, cPick: nat)
    requires PicksInRange(d, cb, actor, tPick, cPick)
    ensures var after := Confirm(d, cb, actor, tPick, cPick).1.participants;
      forall k :: 0 <= k < |after| && after[k].assignedTo != d.participants[k].assignedTo ==>
        after[k].assignedTo != Some(after[k].name)
  {
  }

  /** The colour comes from the pool, which loses exactly one copy of it; when
      the tokens were distinct, no copy of it is left. Any other reply leaves
      the pool as it was. */
  lemma PoolShrinksByChosenColor(d: Data, cb: string, actor: UserId, tPick: nat, cPick: nat)
    requires PicksInRange(d, cb, actor, tPick, cPick)
    ensures var res := Confirm(d, cb, actor, tPick, cPick);
      res.0.Assigned? ==>
        && res.0.color in d.colors
        && |res.1.colors| == |d.colors| - 1
        && multiset(res.1.colors) == multiset(d.colors) - multiset{res.0.color}
        && (Distinct(d.colors) ==> res.0.color !in res.1.colors)
    ensures var res := Confirm(d, cb, actor, tPick, cPick);
      !res.0.Assigned? ==> res.1.colors == d.colors
  {
  }

  /** Lines 201-204: with no candidate or no colour the claim stays committed,
      no `assignedTo` or `color` is written and the pool is untouched. */
  lemma ExhaustionKeepsClaim(d: Data, name: string, actor: UserId, i: nat, tPick: nat, cPick: nat)
    requires '|' !in name
    requires i < |d.participants| && d.participants[i].name == name
    requires forall k :: 0 <= k < i ==> d.participants[k].name != name
    requires PicksInRange(d, ConfirmData(name), actor, tPick, cPick)
    ensures var res := Confirm(d, ConfirmData(name), actor, tPick, cPick);
      res.0.NothingToAssign? <==>
        !Holds(d.participants, actor) && !d.participants[i].approved
        && (|Candidates(d.participants, name)| == 0 || |d.colors| == 0)
    ensures var res := Confirm(d, ConfirmData(name), actor, tPick, cPick);
      res.0.NothingToAssign? ==>
        var ps := d.participants;
        && res.1.colors == d.colors
        && res.1.participants == ps[i := ps[i].(approved := true, userId := Some(actor))]
        && forall k :: 0 <= k < |ps| ==>
             res.1.participants[k].assignedTo == ps[k].assignedTo
             && res.1.participants[k].color == ps[k].color
  {
    ParseCallbackIff(ConfirmData(name), "confirm", name);
    ScreenProceeds(d, ConfirmData(name), actor, name, i);
    CandidatesIgnoreClaim(d, i, actor, name);
  }

  /** Write-once holds for everyone except the confirmer: a participant whose
      `assignedTo` is already set keeps it and its colour unless it is the one
      the actor now holds. */
  lemma OnlyConfirmerReassigned(d: Data, cb: string, actor: UserId, tPick: nat, cPick: nat)
    requires PicksInRange(d, cb, actor, tPick, cPick)
    ensures var after := Confirm(d, cb, actor, tPick, cPick).1.participants;
      forall k :: 0 <= k < |after| && Present(d.participants[k].assignedTo)
                  && after[k].userId != Some(actor) ==>
        after[k].assignedTo == d.participants[k].assignedTo && after[k].color == d.participants[k].color
  {
    match Screen(d, cb, actor)
    case Halt(_) =>
    case Proceed(i, name) =>
      CandidatesIgnoreClaim(d, i, actor, name);
      if |Candidates(d.participants, name)| > 0 && |d.colors| > 0 {
        ConfirmOnProceed(d, cb, actor, i, name, tPick, cPick);
      }
  }

  /** A participant whose `assignedTo` is truthy is nobody's candidate. */
  lemma AssignedIsNoCandidate(ps: seq<Participant>, k: nat)
    requires k < |ps| && Present(ps[k].assignedTo)
    ensures forall n :: k !in Candidates(ps, n)
  {
  }

  /** Both participants an allocation writes leave the candidates for good:
      with non-empty names, each changed `assignedTo` is truthy, so the filter
      of lines 195-198 skips it in every later draw. In particular a confirmer
      who was never drawn as a target can no longer be drawn. */
  lemma AllocatedLeaveCandidates(d: Data, cb: string, actor: UserId, tPick: nat, cPick: nat)
    requires PicksInRange(d, cb, actor, tPick, cPick)
    requires forall k :: 0 <= k < |d.participants| ==> d.participants[k].name != []
    ensures var after := Confirm(d, cb, actor, tPick, cPick).1.participants;
      forall k :: 0 <= k < |after| && after[k].assignedTo != d.participants[k].assignedTo ==>
        Present(after[k].assignedTo)
  {
    match Screen(d, cb, actor)
    case Halt(_) =>
    case Proceed(i, name) =>
      CandidatesIgnoreClaim(d, i, actor, name);
      if |Candidates(d.participants, name)| > 0 && |d.colors| > 0 {
        ConfirmOnProceed(d, cb, actor, i, name, tPick, cPick);
      }
  }

  // ---------------------------------------------------------------------
  // From a proposal to its buttons (lines 139-146 and 151-232)

  /** With unique roster names, pressing "confirm" under a proposal commits the
      claim when the proposed name holds no '|' and nothing changed between the
      two messages; a name with a '|' makes a callback that always fails to
      parse. */
  lemma ProposalConfirmable(d: Data, actor: UserId, text: string, tPick: nat, cPick: nat)
    requires UniqueNames(d.participants)
    requires HandleName(d.participants, actor, text).Proposed?
    requires PicksInRange(d, ConfirmData(Strip(text)), actor, tPick, cPick)
    ensures '|' !in Strip(text) ==> Committed(Confirm(d, ConfirmData(Strip(text)), actor, tPick, cPick).0)
    ensures '|' in Strip(text) ==> Confirm(d, ConfirmData(Strip(text)), actor, tPick, cPick) == (MalformedData, d)
  {
    var n := Strip(text);
    if '|' !in n {
      var k :| 0 <= k < |d.participants| && d.participants[k].name == n && !d.participants[k].approved;
      ClaimCommitted(d, n, actor, k, tPick, cPick);
    } else {
      ConfirmOfBarredName(d, n, actor, tPick, cPick);
    }
  }

  /** "confirm" on a name with a '|' is malformed and changes nothing. */
  lemma ConfirmOfBarredName(d: Data, n: string, actor: UserId, tPick: nat, cPick: nat)
    requires '|' in n
    ensures PicksInRange(d, ConfirmData(n), actor, tPick, cPick)
    ensures Confirm(d, ConfirmData(n), actor, tPick, cPick) == (MalformedData, d)
  {
    BarsAppend("confirm|", n);
    NoBarsIff(n);
    MalformedCallbackRejected(d, ConfirmData(n), actor, tPick, cPick);
  }

  /** "cancel" on a roster name without '|' is cancelled and changes nothing. */
  lemma CancelOfCleanName(d: Data, n: string, actor: UserId, tPick: nat, cPick: nat)
    requires '|' !in n
    requires exists k :: 0 <= k < |d.participants| && d.participants[k].name == n
    ensures PicksInRange(d, CancelData(n), actor, tPick, cPick)
    ensures Confirm(d, CancelData(n), actor, tPick, cPick) == (Cancelled, d)
  {
    assert CancelData(n) == "cancel" + "|" + n;
    OtherActionsChangeNothing(d, "cancel", n, actor, tPick, cPick);
  }

  /** "cancel" on a name with a '|' is malformed and changes nothing. */
  lemma CancelOfBarredName(d: Data, n: string, actor: UserId, tPick: nat, cPick: nat)
    requires '|' in n
    ensures PicksInRange(d, CancelData(n), actor, tPick, cPick)
    ensures Confirm(d, CancelData(n), actor, tPick, cPick) == (MalformedData, d)
  {
    BarsAppend("cancel|", n);
    NoBarsIff(n);
    MalformedCallbackRejected(d, CancelData(n), actor, tPick, cPick);
  }

  /** Pressing "cancel" under a proposal changes nothing: the reply is
      "cancelled" when the name holds no '|', and "malformed" otherwise. */
  lemma ProposalCancellable(d: Data, actor: UserId, text: string, tPick: nat, cPick: nat)
    requires HandleName(d.participants, actor, text).Proposed?
    ensures PicksInRange(d, CancelData(Strip(text)), actor, tPick, cPick)
    ensures Confirm(d, CancelData(Strip(text)), actor, tPick, cPick).1 == d
    ensures '|' !in Strip(text) ==> Confirm(d, CancelData(Strip(text)), actor, tPick, cPick) == (Cancelled, d)
    ensures '|' in Strip(text) ==> Confirm(d, CancelData(Strip(text)), actor, tPick, cPick) == (MalformedData, d)
  {
    var n := Strip(text);
    if '|' in n {
      CancelOfBarredName(d, n, actor, tPick, cPick);
    } else {
      CancelOfCleanName(d, n, actor, tPick, cPick);
    }
  }

  // ---------------------------------------------------------------------
  // The registry stays consistent

  /** Claiming an unapproved participant for an actor who holds nothing keeps
      the registry consistent. */
  lemma ClaimKeepsConsistency(d: Data, i: nat, actor: UserId)
    requires Consistent(d)
    requires i < |d.participants| && !d.participants[i].approved && !Holds(d.participants, actor)
    ensures Consistent(Claimed(d, i, actor))
  {
    var ps, after := d.participants, Claimed(d, i, actor).participants;
    forall j, k | 0 <= j < k < |after| && after[j].userId.Some?
      ensures after[j].userId != after[k].userId
    {
      if j == i {
        assert ps[k].userId != Some(actor);
      } else if k == i {
        assert ps[j].userId != Some(actor);
      }
    }
  }

  /** An allocation between the confirmer `i` and a differently named target
      `t`, with a token from the pool, keeps the registry consistent. */
  lemma AllocateKeepsConsistency(d: Data, i: nat, name: string, t: nat, token: string)
    requires Consistent(d)
    requires i < |d.participants| && t < |d.participants| && i != t && token in d.colors
    requires d.participants[i].name == name && d.participants[t].name != name
    ensures Consistent(Allocate(d, i, name, t, token))
  {
    var ps, d2 := d.participants, Allocate(d, i, name, t, token);
    var after := d2.participants;
    forall k | 0 <= k < |after| && after[k].color.Some? ensures after[k].color.value !in d2.colors {
      if k != i && k != t {
        var v := after[k].color.value;
        assert v !in d.colors;
        assert multiset(d2.colors)[v] == 0;
      }
    }
  }

  /** Every callback keeps a consistent registry consistent. */
  lemma ConfirmKeepsConsistency(d: Data, cb: string, actor: UserId, tPick: nat, cPick: nat)
    requires Consistent(d)
    requires PicksInRange(d, cb, actor, tPick, cPick)
    ensures Consistent(Confirm(d, cb, actor, tPick, cPick).1)
  {
    match Screen(d, cb, actor)
    case Halt(_) =>
    case Proceed(i, name) =>
      ClaimKeepsConsistency(d, i, actor);
      var d1 := Claimed(d, i, actor);
      var cands := Candidates(d1.participants, name);
      if |cands| > 0 && |d1.colors| > 0 {
        var t := cands[tPick];
        AllocateKeepsConsistency(d1, i, name, t, d1.colors[cPick]);
      }
  }

  /** A claim is permanent: an approved participant stays approved and held
      by the same actor after any callback. */
  lemma ClaimsArePermanent(d: Data, cb: string, actor: UserId, tPick: nat, cPick: nat)
    requires PicksInRange(d, cb, actor, tPick, cPick)
    ensures var after := Confirm(d, cb, actor, tPick, cPick).1.participants;
      forall k :: 0 <= k < |d.participants| && d.participants[k].approved ==>
        after[k].approved && after[k].userId == d.participants[k].userId
  {
    match Screen(d, cb, actor)
    case Halt(_) =>
    case Proceed(i, name) =>
      CandidatesIgnoreClaim(d, i, actor, name);
      if |Candidates(d.participants, name)| > 0 && |d.colors| > 0 {
        ConfirmOnProceed(d, cb, actor, i, name, tPick, cPick);
      }
  }

  // ---------------------------------------------------------------------
  // Runs: the callbacks the bot handles one after another

  /** One press of a button, with the picks `random.choice` makes for it. */
  datatype Press = Press(cb: string, actor: UserId, tPick: nat, cPick: nat)

  /** Every pick of the run is in range when it is needed. */
  predicate Feasible(d: Data, run: seq<Press>)
    decreases |run|
  {
    run == [] ||
    (PicksInRange(d, run[0].cb, run[0].actor, run[0].tPick, run[0].cPick)
     && Feasible(Confirm(d, run[0].cb, run[0].actor, run[0].tPick, run[0].cPick).1, run[1..]))
  }

  /** The registry after the presses of `run`, in order. */
  function Run(d: Data, run: seq<Press>): Data
    requires Feasible(d, run)
    decreases |run|
  {
    if run == [] then d
    else Run(Confirm(d, run[0].cb, run[0].actor, run[0].tPick, run[0].cPick).1, run[1..])
  }

  /** Starting consistent, the registry is consistent after any run. */
  lemma {:induction false} RunKeepsConsistency(d: Data, run: seq<Press>)
    requires Consistent(d) && Feasible(d, run)
    ensures Consistent(Run(d, run))
    decreases |run|
  {
    if run != [] {
      var p := run[0];
      ConfirmKeepsConsistency(d, p.cb, p.actor, p.tPick, p.cPick);
      RunKeepsConsistency(Confirm(d, p.cb, p.actor, p.tPick, p.cPick).1, run[1..]);
    }
  }

  /** Over any run the roster keeps its names and claims are never undone. */
  lemma {:induction false} RunKeepsClaims(d: Data, run: seq<Press>)
    requires Feasible(d, run)
    ensures var after := Run(d, run).participants;
      && |after| == |d.participants|
      && (forall k :: 0 <= k < |d.participants| ==> after[k].name == d.participants[k].name)
      && (forall k :: 0 <= k < |d.participants| && d.participants[k].approved ==>
            after[k].approved && after[k].userId == d.participants[k].userId)
    decreases |run|
  {
    if run != [] {
      var p := run[0];
      var d1 := Confirm(d, p.cb, p.actor, p.tPick, p.cPick).1;
      ClaimsArePermanent(d, p.cb, p.actor, p.tPick, p.cPick);
      RunKeepsClaims(d1, run[1..]);
      assert Run(d, run) == Run(d1, run[1..]);
    }
  }

  /** Over any run the pool only loses tokens. */
  lemma {:induction false} RunShrinksPool(d: Data, run: seq<Press>)
    requires Feasible(d, run)
    ensures multiset(Run(d, run).colors) <= multiset(d.colors)
    decreases |run|
  {
    if run != [] {
      var p := run[0];
      PoolShrinksByChosenColor(d, p.cb, p.actor, p.tPick, p.cPick);
      RunShrinksPool(Confirm(d, p.cb, p.actor, p.tPick, p.cPick).1, run[1..]);
    }
  }

  /** Every registry the bot reaches from its seed data is consistent. */
  lemma ReachableIsConsistent(run: seq<Press>)
    requires Feasible(InitialData(), run)
    ensures Consistent(Run(InitialData(), run))
  {
    InitialDataConsistent();
    RunKeepsConsistency(InitialData(), run);
  }

  // ---------------------------------------------------------------------
  // A worked example: a roster of three and a pool of two tokens

  /** Three '|'-free, non-empty, distinct names. */
  predicate ThreeNames(a: string, b: string, c: string) {
    && a != [] && b != [] && c != []
    && '|' !in a && '|' !in b && '|' !in c
    && a != b && a != c && b != c
  }

  function ThreeFriends(a: string, b: string, c: string, red: string, blue: string): Data {
    Data([Fresh(a), Fresh(b), Fresh(c)], [red, blue])
  }

  /** The registry after actor `x` confirms `a` and draws `b` and `red`. */
  function AfterFirst(a: string, b: string, c: string, x: UserId, red: string, blue: string): Data {
    Data([ Participant(a, true, Some(x), Some(b), Some(red)),
           Participant(b, false, None, Some(a), Some(red)),
           Fresh(c) ],
         [blue])
  }

  lemma FirstCandidates(a: string, b: string, c: string, red: string, blue: string)
    requires ThreeNames(a, b, c)
    ensures Candidates(ThreeFriends(a, b, c, red, blue).participants, a) == [1, 2]
  {
    var keep := (p: Participant) => p.name != a && !Present(p.assignedTo);
    IndicesWhereSnocSkipped([], Fresh(a), keep);
    assert [] + [Fresh(a)] == [Fresh(a)];
    IndicesWhereSnocKept([Fresh(a)], Fresh(b), keep);
    assert [Fresh(a)] + [Fresh(b)] == [Fresh(a), Fresh(b)];
    IndicesWhereSnocKept([Fresh(a), Fresh(b)], Fresh(c), keep);
    assert [Fresh(a), Fresh(b)] + [Fresh(c)] == [Fresh(a), Fresh(b), Fresh(c)];
  }

  lemma SecondCandidates(a: string, b: string, c: string, x: UserId, red: string, blue: string)
    requires ThreeNames(a, b, c)
    ensures Candidates(AfterFirst(a, b, c, x, red, blue).participants, b) == [2]
  {
    var ps1 := AfterFirst(a, b, c, x, red, blue).participants;
    var keep := (p: Participant) => p.name != b && !Present(p.assignedTo);
    IndicesWhereSnocSkipped([], ps1[0], keep);
    assert [] + [ps1[0]] == [ps1[0]];
    IndicesWhereSnocSkipped([ps1[0]], ps1[1], keep);
    assert [ps1[0]] + [ps1[1]] == [ps1[0], ps1[1]];
    IndicesWhereSnocKept([ps1[0], ps1[1]], ps1[2], keep);
    assert [ps1[0], ps1[1]] + [ps1[2]] == ps1;
  }

  /** The roster that allocation leaves. */
  lemma FirstAllocationRoster(a: string, b: string, c: string, x: UserId, red: string, blue: string)
    requires ThreeNames(a, b, c) && red != blue
    ensures Allocate(Claimed(ThreeFriends(a, b, c, red, blue), 0, x), 0, a, 1, red).participants ==
            AfterFirst(a, b, c, x, red, blue).participants
  {
  }

  /** The pool that allocation leaves. */
  lemma FirstAllocationPool(a: string, b: string, c: string, x: UserId, red: string, blue: string)
    requires ThreeNames(a, b, c) && red != blue
    ensures Allocate(Claimed(ThreeFriends(a, b, c, red, blue), 0, x), 0, a, 1, red).colors == [blue]
  {
    RemoveFirstOfHead([red, blue]);
    assert [red, blue][1..] == [blue];
  }

  /** Actor `x` confirms `a`; with the first candidate and the first token the
      pair is `a` and `b`, in `red`, and `red` leaves the pool. */
  lemma FirstConfirmExample(a: string, b: string, c: string, x: UserId, red: string, blue: string)
    requires ThreeNames(a, b, c) && red != blue
    ensures PicksInRange(ThreeFriends(a, b, c, red, blue), ConfirmData(a), x, 0, 0)
    ensures Confirm(ThreeFriends(a, b, c, red, blue), ConfirmData(a), x, 0, 0) ==
            (Assigned(b, red), AfterFirst(a, b, c, x, red, blue))
  {
    var d0 := ThreeFriends(a, b, c, red, blue);
    var cb := ConfirmData(a);
    FirstCandidates(a, b, c, red, blue);
    ParseCallbackIff(cb, "confirm", a);
    ScreenProceeds(d0, cb, x, a, 0);
    assert Screen(d0, cb, x) == Proceed(0, a);
    ConfirmOnProceed(d0, cb, x, 0, a, 0, 0);
    FirstAllocationRoster(a, b, c, x, red, blue);
    FirstAllocationPool(a, b, c, x, red, blue);
  }

  /** Write-once does not hold for the confirmer: `b`, drawn as the partner of
      `a`, later confirms its own name and its `assignedTo` and `color` are
      written again (line 218 overwrites line 212), while `a` still names `b`. */
  lemma ConfirmerReassignedExample(a: string, b: string, c: string, x: UserId, y: UserId,
                                   red: string, blue: string)
    requires ThreeNames(a, b, c) && red != blue && x != y
    ensures AfterFirst(a, b, c, x, red, blue).participants[1].assignedTo == Some(a)
    ensures PicksInRange(AfterFirst(a, b, c, x, red, blue), ConfirmData(b), y, 0, 0)
    ensures var (r, d) := Confirm(AfterFirst(a, b, c, x, red, blue), ConfirmData(b), y, 0, 0);
      && r == Assigned(c, blue)
      && d.participants[1].assignedTo == Some(c) && d.participants[1].color == Some(blue)
      && d.participants[0].assignedTo == Some(b)
  {
    var d1 := AfterFirst(a, b, c, x, red, blue);
    SecondCandidates(a, b, c, x, red, blue);
    assert !Holds(d1.participants, y);
    ParseCallbackIff(ConfirmData(b), "confirm", b);
    ScreenProceeds(d1, ConfirmData(b), y, b, 1);
    assert Screen(d1, ConfirmData(b), y) == Proceed(1, b);
    ConfirmOnProceed(d1, ConfirmData(b), y, 1, b, 0, 0);
  }
}
