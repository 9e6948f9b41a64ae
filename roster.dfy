/** The bot's shared registry: an ordered roster of participants and the
    pool of colour tokens still to hand out, with the two ways the handlers
    search the roster (`next(...)` over a generator and a list
    comprehension) and the consistency properties the handlers keep. */
module Roster {

  datatype Option<T> = None | Some(value: T)

  /** A Telegram user id. */
  type UserId = int

  /** One roster entry. `userId` is the actor who claimed the entry;
      `assignedTo` and `color` are written by an allocation (on the target
      it names the giver, on the confirmer the recipient). */
  datatype Participant = Participant(
    name: string,
    approved: bool,
    userId: Option<UserId>,
    assignedTo: Option<string>,
    color: Option<string>)

  /** The whole registry: what the bot keeps in memory and in its JSON file. */
  datatype Data = Data(participants: seq<Participant>, colors: seq<string>)

  /** Python truthiness of a field that holds a string or None: None and the
      empty string are both falsy. */
  predicate Present(o: Option<string>) {
    o.Some? && o.value != []
  }

  /** `next((p for p in ps if keep(p)), None)`: the index of the first entry
      that satisfies `keep`, or None when there is none. */
  function FindFirst(ps: seq<Participant>, keep: Participant -> bool): (r: Option<nat>)
    ensures r.Some? ==> r.value < |ps| && keep(ps[r.value])
    ensures r.Some? ==> forall k :: 0 <= k < r.value ==> !keep(ps[k])
    ensures r.None? <==> forall k :: 0 <= k < |ps| ==> !keep(ps[k])
  {
    if ps == [] then None
    else if keep(ps[0]) then Some(0)
    else
      match FindFirst(ps[1..], keep)
      case None => None
      case Some(k) => Some(k + 1)
  }

  /** The indices kept by `[p for p in ps if keep(p)]`: exactly the entries
      that satisfy `keep`, in roster order. */
  function IndicesWhere(ps: seq<Participant>, keep: Participant -> bool): (ix: seq<nat>)
    ensures forall j :: 0 <= j < |ix| ==> ix[j] < |ps| && keep(ps[ix[j]])
    ensures forall j, j' :: 0 <= j < j' < |ix| ==> ix[j] < ix[j']
    ensures forall k :: 0 <= k < |ps| && keep(ps[k]) ==> k in ix
  {
    if ps == [] then []
    else
      var rest := IndicesWhere(ps[..|ps| - 1], keep);
      if keep(ps[|ps| - 1]) then rest + [|ps| - 1] else rest
  }

  /** Extending the roster by a kept entry extends the comprehension by its index. */
  lemma IndicesWhereSnocKept(ps: seq<Participant>, p: Participant, keep: Participant -> bool)
    requires keep(p)
    ensures IndicesWhere(ps + [p], keep) == IndicesWhere(ps, keep) + [|ps|]
  {
    assert (ps + [p])[..|ps|] == ps;
  }

  /** Extending the roster by an entry that is not kept leaves the comprehension as it was. */
  lemma IndicesWhereSnocSkipped(ps: seq<Participant>, p: Participant, keep: Participant -> bool)
    requires !keep(p)
    ensures IndicesWhere(ps + [p], keep) == IndicesWhere(ps, keep)
  {
    assert (ps + [p])[..|ps|] == ps;
  }

  /** Two comprehensions over rosters of one length whose conditions agree
      entry by entry keep the same indices. */
  lemma {:induction false} IndicesWhereAgree(ps: seq<Participant>, f: Participant -> bool,
                                              qs: seq<Participant>, g: Participant -> bool)
    requires |ps| == |qs|
    requires forall k :: 0 <= k < |ps| ==> f(ps[k]) == g(qs[k])
    ensures IndicesWhere(ps, f) == IndicesWhere(qs, g)
  {
    if ps != [] {
      IndicesWhereAgree(ps[..|ps| - 1], f, qs[..|qs| - 1], g);
    }
  }

  /** The names at the given roster indices. */
  function NamesAt(ps: seq<Participant>, ix: seq<nat>): (names: seq<string>)
    requires forall j :: 0 <= j < |ix| ==> ix[j] < |ps|
    ensures |names| == |ix|
    ensures forall j :: 0 <= j < |ix| ==> names[j] == ps[ix[j]].name
  {
    seq(|ix|, j requires 0 <= j < |ix| => ps[ix[j]].name)
  }

  /** Whether some participant is claimed by `actor`. */
  predicate Holds(ps: seq<Participant>, actor: UserId) {
    exists k :: 0 <= k < |ps| && ps[k].userId == Some(actor)
  }

  /** `next(p for p in ps if p["user_id"] == user_id)`: the first participant
      claimed by `actor`, found exactly when the actor holds one. */
  function FindByUser(ps: seq<Participant>, actor: UserId): (r: Option<nat>)
    ensures r.Some? <==> Holds(ps, actor)
    ensures r.Some? ==> r.value < |ps| && ps[r.value].userId == Some(actor)
    ensures r.Some? ==> forall k :: 0 <= k < r.value ==> ps[k].userId != Some(actor)
  {
    var keep := (p: Participant) => p.userId == Some(actor);
    var r := FindFirst(ps, keep);
    assert r.None? ==> !Holds(ps, actor) by {
      if r.None? {
        forall k | 0 <= k < |ps| ensures ps[k].userId != Some(actor) {
          assert !keep(ps[k]);
        }
      }
    }
    assert r.Some? ==> forall k :: 0 <= k < r.value ==> ps[k].userId != Some(actor) by {
      if r.Some? {
        forall k | 0 <= k < r.value ensures ps[k].userId != Some(actor) {
          assert !keep(ps[k]);
        }
      }
    }
    r
  }

  /** `next(p for p in ps if p["name"] == name)`: the first participant called
      `name`, claimed or not, found exactly when the roster has the name. */
  function FindByName(ps: seq<Participant>, name: string): (r: Option<nat>)
    ensures r.Some? <==> exists k :: 0 <= k < |ps| && ps[k].name == name
    ensures r.Some? ==> r.value < |ps| && ps[r.value].name == name
    ensures r.Some? ==> forall k :: 0 <= k < r.value ==> ps[k].name != name
  {
    var keep := (p: Participant) => p.name == name;
    var r := FindFirst(ps, keep);
    assert r.None? ==> forall k :: 0 <= k < |ps| ==> ps[k].name != name by {
      if r.None? {
        forall k | 0 <= k < |ps| ensures ps[k].name != name {
          assert !keep(ps[k]);
        }
      }
    }
    assert r.Some? ==> forall k :: 0 <= k < r.value ==> ps[k].name != name by {
      if r.Some? {
        forall k | 0 <= k < r.value ensures ps[k].name != name {
          assert !keep(ps[k]);
        }
      }
    }
    r
  }

  // ---------------------------------------------------------------------
  // Consistency of the registry

  /** No actor holds two participants. */
  predicate UniqueClaims(ps: seq<Participant>) {
    forall j, k :: 0 <= j < k < |ps| && ps[j].userId.Some? ==> ps[j].userId != ps[k].userId
  }

  /** A participant is approved exactly when some actor holds it. */
  predicate ClaimsApproved(ps: seq<Participant>) {
    forall k :: 0 <= k < |ps| ==> ps[k].approved == ps[k].userId.Some?
  }

  /** `assignedTo` and `color` are set together or not at all. */
  predicate AssignmentsPaired(ps: seq<Participant>) {
    forall k :: 0 <= k < |ps| ==> ps[k].assignedTo.Some? == ps[k].color.Some?
  }

  /** Nobody is paired with themselves. */
  predicate NoSelfAssignment(ps: seq<Participant>) {
    forall k :: 0 <= k < |ps| ==> ps[k].assignedTo != Some(ps[k].name)
  }

  predicate Distinct(s: seq<string>) {
    forall j, k :: 0 <= j < k < |s| ==> s[j] != s[k]
  }

  /** The pool holds each token once, and no token handed to a participant
      is still in the pool. */
  predicate NoDoubleSpend(d: Data) {
    && Distinct(d.colors)
    && forall k :: 0 <= k < |d.participants| && d.participants[k].color.Some? ==>
         d.participants[k].color.value !in d.colors
  }

  predicate Consistent(d: Data) {
    && UniqueClaims(d.participants)
    && ClaimsApproved(d.participants)
    && AssignmentsPaired(d.participants)
    && NoSelfAssignment(d.participants)
    && NoDoubleSpend(d)
  }

  /** Every roster name occurs once. */
  predicate UniqueNames(ps: seq<Participant>) {
    forall j, k :: 0 <= j < k < |ps| ==> ps[j].name != ps[k].name
  }

  // ---------------------------------------------------------------------
  // The seed registry the bot writes when it finds no data file

  function Fresh(name: string): Participant {
    Participant(name, false, None, None, None)
  }

  function InitialData(): (d: Data)
    ensures |d.participants| == 10 && |d.colors| == 10
    ensures forall k :: 0 <= k < |d.participants| ==> d.participants[k] == Fresh(d.participants[k].name)
  {
    Data(
      [ Fresh("Віка"), Fresh("Коля"), Fresh("Дана"), Fresh("Костя"), Fresh("Люда"),
        Fresh("Ярік"), Fresh("Олена"), Fresh("Даня"), Fresh("Славік"), Fresh("Настя") ],
      [ "Чорний 🖤", "Червоний ❤️", "Синій 💙", "Рожевий 💖", "Жовтий 💛",
        "Зелений 💚", "Білий 🤍", "Фіолетовий 💜", "Помаранчевий 🧡", "Коричневий 🤎" ])
  }

  /** The strings are told apart by their characters at positions `a` and `b`. */
  predicate TwoCharsDistinct(s: seq<string>, a: nat, b: nat) {
    && (forall k :: 0 <= k < |s| ==> a < |s[k]| && b < |s[k]|)
    && forall j, k :: 0 <= j < k < |s| ==> s[j][a] != s[k][a] || s[j][b] != s[k][b]
  }

  lemma TwoCharsDistinctMeansDistinct(s: seq<string>, a: nat, b: nat)
    requires TwoCharsDistinct(s, a, b)
    ensures Distinct(s)
  {
    forall j, k | 0 <= j < k < |s| ensures s[j] != s[k] {
      assert s[j][a] != s[k][a] || s[j][b] != s[k][b];
    }
  }

  lemma InitialNamesUnique()
    ensures UniqueNames(InitialData().participants)
  {
    var ps := InitialData().participants;
    var names := seq(10, k requires 0 <= k < 10 => ps[k].name);
    assert TwoCharsDistinct(names, 0, 3);
    TwoCharsDistinctMeansDistinct(names, 0, 3);
    forall j, k | 0 <= j < k < |ps| ensures ps[j].name != ps[k].name {
      assert names[j] != names[k];
    }
  }

  lemma InitialColorsDistinct()
    ensures Distinct(InitialData().colors)
  {
    assert TwoCharsDistinct(InitialData().colors, 0, 1);
    TwoCharsDistinctMeansDistinct(InitialData().colors, 0, 1);
  }

  /** The seed registry is consistent, its names are unique and nothing in it
      is claimed yet. */
  lemma InitialDataConsistent()
    ensures Consistent(InitialData()) && UniqueNames(InitialData().participants)
  {
    InitialNamesUnique();
    InitialColorsDistinct();
  }
}
