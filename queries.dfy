/** The three handlers that only read the registry: /start, a typed name,
    and /my_task. Each is a function of the participant list, so none of
    them can change the registry. */
module Queries {
  import opened Roster
  import opened Text

  /** What a participant has to do: gift `recipient`, in `color`. */
  datatype Task = Task(recipient: string, color: string)

  /** The assignment stored on one participant (`if assigned_to and color`):
      there is one exactly when both fields are set and non-empty, and it
      carries their values. */
  function TaskOf(p: Participant): (r: Option<Task>)
    ensures r.Some? <==> Present(p.assignedTo) && Present(p.color)
    ensures r.Some? ==> p.assignedTo == Some(r.value.recipient) && p.color == Some(r.value.color)
  {
    if Present(p.assignedTo) && Present(p.color) then Some(Task(p.assignedTo.value, p.color.value))
    else None
  }

  /** /my_task: the assignment of the participant the actor holds, reported only
      when both its `assignedTo` and its `color` are set. */
  function MyTask(ps: seq<Participant>, actor: UserId): (r: Option<Task>)
    ensures !Holds(ps, actor) ==> r.None?
    ensures r.Some? ==> r.value.recipient != [] && r.value.color != []
    ensures r.Some? ==>
      exists k :: 0 <= k < |ps| && ps[k].userId == Some(actor)
                  && ps[k].assignedTo == Some(r.value.recipient) && ps[k].color == Some(r.value.color)
    ensures UniqueClaims(ps) ==>
      forall k :: 0 <= k < |ps| && ps[k].userId == Some(actor) ==>
        (r.Some? <==> Present(ps[k].assignedTo) && Present(ps[k].color))
  {
    match FindByUser(ps, actor)
    case None => None
    case Some(k) => TaskOf(ps[k])
  }

  // ---------------------------------------------------------------------
  // /start

  datatype StartReply =
    | AlreadyChosen(name: string, task: Option<Task>)
    | ChooseFrom(names: seq<string>)
    | AllTaken

  /** The filter of the name keyboard: unapproved, or owned by the actor. */
  predicate Offered(p: Participant, actor: UserId) {
    !p.approved || p.userId == Some(actor)
  }

  /** The names put on the keyboard, in roster order. */
  function AvailableNames(ps: seq<Participant>, actor: UserId): seq<string> {
    NamesAt(ps, IndicesWhere(ps, (p: Participant) => Offered(p, actor)))
  }

  /** The names of the unapproved participants, in roster order. */
  function UnapprovedNames(ps: seq<Participant>): seq<string> {
    NamesAt(ps, IndicesWhere(ps, (p: Participant) => !p.approved))
  }

  /** A name is on the keyboard exactly when some participant of that name is
      unapproved or owned by the actor. */
  lemma AvailableNamesMembership(ps: seq<Participant>, actor: UserId, n: string)
    ensures n in AvailableNames(ps, actor) <==>
            exists k :: 0 <= k < |ps| && ps[k].name == n && Offered(ps[k], actor)
  {
    var keep := (p: Participant) => Offered(p, actor);
    var ix := IndicesWhere(ps, keep);
    var names := AvailableNames(ps, actor);
    if n in names {
      var j :| 0 <= j < |names| && names[j] == n;
      assert keep(ps[ix[j]]);
    }
    if exists k :: 0 <= k < |ps| && ps[k].name == n && Offered(ps[k], actor) {
      var k :| 0 <= k < |ps| && ps[k].name == n && Offered(ps[k], actor);
      assert keep(ps[k]);
      var j :| 0 <= j < |ix| && ix[j] == k;
      assert names[j] == n;
    }
  }

  /** The keyboard lists the offered names in roster order: they are the names
      at a strictly increasing run of indices that holds exactly the offered
      participants. */
  lemma AvailableNamesInRosterOrder(ps: seq<Participant>, actor: UserId)
    ensures exists ix: seq<nat> ::
      && |ix| == |AvailableNames(ps, actor)|
      && (forall j :: 0 <= j < |ix| ==> ix[j] < |ps| && AvailableNames(ps, actor)[j] == ps[ix[j]].name)
      && (forall j, j' :: 0 <= j < j' < |ix| ==> ix[j] < ix[j'])
      && (forall k :: 0 <= k < |ps| ==> (k in ix <==> Offered(ps[k], actor)))
  {
    var keep := (p: Participant) => Offered(p, actor);
    var ix := IndicesWhere(ps, keep);
    forall k | 0 <= k < |ps| ensures k in ix <==> Offered(ps[k], actor) {
      if k in ix {
        var j :| 0 <= j < |ix| && ix[j] == k;
        assert keep(ps[ix[j]]);
      } else {
        assert !keep(ps[k]);
      }
    }
  }

  /** /start: an actor who holds a participant is shown that name and the same
      task /my_task reports; anyone else gets the keyboard of offered names,
      or is told that every name is taken. */
  function Start(ps: seq<Participant>, actor: UserId): (r: StartReply)
    ensures r.AlreadyChosen? <==> Holds(ps, actor)
    ensures r.AlreadyChosen? ==>
      (exists k :: 0 <= k < |ps| && ps[k].userId == Some(actor) && ps[k].name == r.name)
      && r.task == MyTask(ps, actor)
    ensures r.ChooseFrom? ==> r.names == AvailableNames(ps, actor) && r.names != []
    ensures r.AllTaken? <==>
      !Holds(ps, actor) && forall k :: 0 <= k < |ps| ==> !Offered(ps[k], actor)
  {
    match FindByUser(ps, actor)
    case Some(k) => AlreadyChosen(ps[k].name, TaskOf(ps[k]))
    case None =>
      var names := AvailableNames(ps, actor);
      if names == [] then
        assert forall k :: 0 <= k < |ps| ==> !Offered(ps[k], actor) by {
          forall k | 0 <= k < |ps| ensures !Offered(ps[k], actor) {
            AvailableNamesMembership(ps, actor, ps[k].name);
          }
        }
        AllTaken
      else
        assert exists k :: 0 <= k < |ps| && Offered(ps[k], actor) by {
          AvailableNamesMembership(ps, actor, names[0]);
        }
        ChooseFrom(names)
  }

  /** In the branch that builds the keyboard the actor holds nothing, so the
      "or owned by the actor" half of the filter never selects anything: the
      keyboard is just the unapproved names. */
  lemma OwnNameNeverOffered(ps: seq<Participant>, actor: UserId)
    requires !Holds(ps, actor)
    ensures AvailableNames(ps, actor) == UnapprovedNames(ps)
    ensures Start(ps, actor).ChooseFrom? ==> Start(ps, actor).names == UnapprovedNames(ps)
  {
    IndicesWhereAgree(ps, (p: Participant) => Offered(p, actor), ps, (p: Participant) => !p.approved);
  }

  // ---------------------------------------------------------------------
  // A typed name

  datatype NameReply =
    | Proposed(name: string)
    | HoldsAnother(existing: string)
    | Unavailable

  /** The callback data of the two buttons under a proposal. */
  function ConfirmData(name: string): string { "confirm|" + name }
  function CancelData(name: string): string { "cancel|" + name }

  /** Whether some participant called `n` is still unapproved. */
  predicate Claimable(ps: seq<Participant>, n: string) {
    exists k :: 0 <= k < |ps| && ps[k].name == n && !ps[k].approved
  }

  /** The handler of a typed name: the stripped text is proposed when a
      participant of that name is unapproved and the actor holds none; an
      actor who holds one is told its name; otherwise the name is
      unavailable. */
  function HandleName(ps: seq<Participant>, actor: UserId, text: string): (r: NameReply)
    ensures r.Proposed? <==> Claimable(ps, Strip(text)) && !Holds(ps, actor)
    ensures r.Proposed? ==> r.name == Strip(text)
    ensures r.Unavailable? <==> !Claimable(ps, Strip(text))
    ensures r.HoldsAnother? ==>
      Claimable(ps, Strip(text))
      && exists k :: 0 <= k < |ps| && ps[k].userId == Some(actor) && ps[k].name == r.existing
  {
    var n := Strip(text);
    var found := FindFirst(ps, (p: Participant) => p.name == n && !p.approved);
    if found.None? then
      assert !Claimable(ps, n) by {
        forall k | 0 <= k < |ps| ensures !(ps[k].name == n && !ps[k].approved) {
          assert !((p: Participant) => p.name == n && !p.approved)(ps[k]);
        }
      }
      Unavailable
    else
      assert ps[found.value].name == n && !ps[found.value].approved;
      match FindByUser(ps, actor)
      case Some(k) => HoldsAnother(ps[k].name)
      case None => Proposed(n)
  }
}
