/** The bot's module-level state: the registry it loads at start-up and the
    handler that updates it in place. The fields are the two lists of the
    `data` dictionary, which the callback handler rewrites entry by entry,
    and `persisted` is what `participants.json` holds after the last
    `save_data()`. */
module Bot {
  import opened Roster
  import opened Text
  import opened Confirmation

  class Registry {
    var participants: seq<Participant>
    var colors: seq<string>
    /** The registry as last written to the data file. */
    var persisted: Data

    /** The in-memory registry as one value. */
    function Snapshot(): Data
      reads this
    {
      Data(participants, colors)
    }

    /** Start-up: the data file's contents when there is one; otherwise the
        seed registry, which is written to the file at once. */
    constructor Load(file: Option<Data>)
      ensures Snapshot() == (if file.Some? then file.value else InitialData())
      ensures persisted == Snapshot()
    {
      var d := if file.Some? then file.value else InitialData();
      participants := d.participants;
      colors := d.colors;
      persisted := d;
    }

    /** `save_data()`: the file now holds the in-memory registry. */
    method Save()
      modifies this
      ensures persisted == Snapshot()
      ensures participants == old(participants) && colors == old(colors)
    {
      persisted := Data(participants, colors);
    }

    /** The callback handler, updating the roster entry by entry and the pool
        by `list.remove`. It does what `Confirm` describes, saves only after an
        allocation, and keeps a consistent registry consistent. */
    method HandleConfirmation(cb: string, actor: UserId, tPick: nat, cPick: nat) returns (reply: Reply)
      requires PicksInRange(Snapshot(), cb, actor, tPick, cPick)
      modifies this
      ensures (reply, Snapshot()) == Confirm(old(Snapshot()), cb, actor, tPick, cPick)
      ensures persisted == if reply.Assigned? then Snapshot() else old(persisted)
      ensures old(Consistent(Snapshot())) ==> Consistent(Snapshot())
    {
      ghost var d0 := Snapshot();
      if Consistent(d0) {
        ConfirmKeepsConsistency(d0, cb, actor, tPick, cPick);
      }
      var parts := Split(cb);
      if |parts| != 2 {
        return MalformedData;
      }
      var action, name := parts[0], parts[1];
      var found := FindByName(participants, name);
      if found.None? {
        return NameNotFound;
      }
      var i := found.value;
      if action == "confirm" {
        var existing := FindByUser(participants, actor);
        if existing.Some? {
          return AlreadyHolds(participants[existing.value].name);
        }
        if participants[i].approved && participants[i].userId != Some(actor) {
          return TakenByOther;
        }
        assert Screen(d0, cb, actor) == Proceed(i, name);
        participants := participants[i := participants[i].(approved := true, userId := Some(actor))];
        assert Snapshot() == Claimed(d0, i, actor);
        var remaining := Candidates(participants, name);
        if |remaining| == 0 || |colors| == 0 {
          return NothingToAssign;
        }
        ghost var d1 := Snapshot();
        var t := remaining[tPick];
        var token := colors[cPick];
        participants := participants[t := participants[t].(assignedTo := Some(name), color := Some(token))];
        colors := RemoveFirst(colors, token);
        participants := participants[i := participants[i].(assignedTo := Some(participants[t].name),
                                                            color := Some(token))];
        assert Snapshot() == Allocate(d1, i, name, t, token);
        Save();
        reply := Assigned(participants[t].name, token);
      } else if action == "cancel" {
        reply := Cancelled;
      } else {
        reply := UnknownAction(action);
      }
    }
  }
}
