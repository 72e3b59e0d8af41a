/** The command handlers of chronos/bot.py as functions of the party table
    and the incoming message: what each one does to the table and what it
    replies. Chat I/O is reduced to the reply it would send. */
module Handlers {
  import opened Wrappers
  import opened Dicts
  import opened Text
  import opened Clocks
  import Utils
  import opened Parties

  /** A chat message: who sent it, its text, and whether its channel is a
      guild text channel (`isinstance(message.channel, TextChannel)`; a
      direct message is not). `authorIsSelf` is `message.author == client.user`. */
  datatype Message = Message(authorId: int, authorIsBot: bool, authorIsSelf: bool, content: string, inTextChannel: bool)

  /** What the handlers learn from outside the bot: HumanTime's parse of a
      time expression (a naive time in minutes, or `None` for `ValueError`),
      whether `fetch_message` finds a message id in the channel, and whether
      the Hall of Fame channel exists. */
  datatype Env = Env(parseTime: string -> Option<int>, messageExists: int -> bool, hofChannelExists: bool)

  /** One line of `do_convert`: the member, its offset, and the wall-clock
      reading (in minutes) of the converted `datetime` in the member's zone. */
  datatype Line = Line(member: int, offset: int, local: int)

  /** The `+hh` that `{offset:+03}` renders in a line's `UTC+hh`. */
  function Label(l: Line): string {
    FormatOffset(l.offset)
  }

  /** What `strftime('%A at %H:%M')` renders for a line. */
  function Shown(l: Line): Clock {
    ClockAt(l.local)
  }

  datatype Reply =
    | PartyExists(name: string)
    | PartyCreated(name: string)
    | PartyDeleted(name: string)
    | PartyMissing(name: string)
    | AddUsage
    | InvalidOffset(offsetText: string)
    | MemberAdded(member: int, party: string)
    | ConvertUsage
    | InvalidTimestamp(timeText: string)
    | NotInAnyParty
    | MemberNotInAnyParty(member: int)
    | Converted(lines: seq<Line>)
    | ConvertAsUsage
    | PartyList(table: Table)
    | Help
    | HofUsage
    | HofNotFound
    | HofAdded(messageId: int)

  /** A handler either sends a reply or raises (the exception reaches the
      dispatcher, which logs it). */
  datatype Outcome = Replied(reply: Reply) | Raised

  // ----- createparty, deleteparty -----

  /** `createparty`: `split()[1]` names the party (`IndexError` when missing). */
  function CreateParty(t: Table, content: string): (Table, Outcome) {
    var parts := SplitWs(content);
    if |parts| < 2 then (t, Raised)
    else
      var name := parts[1];
      if HasKey(t, name) then (t, Replied(PartyExists(name)))
      else (Set(t, name, []), Replied(PartyCreated(name)))
  }

  /** A missing name raises and changes nothing; an existing name changes
      nothing; a new name is appended with no members and nothing else moves. */
  lemma CreatePartySpec(t: Table, content: string)
    requires ValidTable(t)
    ensures var parts := SplitWs(content);
            && (|parts| < 2 ==> CreateParty(t, content) == (t, Raised))
            && (|parts| >= 2 && HasKey(t, parts[1]) ==>
                  CreateParty(t, content) == (t, Replied(PartyExists(parts[1]))))
            && (|parts| >= 2 && !HasKey(t, parts[1]) ==>
                  CreateParty(t, content) == (t + [(parts[1], [])], Replied(PartyCreated(parts[1]))))
    ensures ValidTable(CreateParty(t, content).0)
    ensures SingleMembership(t) ==> SingleMembership(CreateParty(t, content).0)
  {
    var parts := SplitWs(content);
    if |parts| >= 2 {
      SetLookup(t, parts[1], []);
      var r := CreateParty(t, content).0;
      forall i | 0 <= i < |r| ensures UniqueKeys(r[i].1) {
        if i < |t| { assert r[i] == t[i]; }
      }
    }
  }

  /** `deleteparty`: `del self.parties[partyname]` when present. */
  function DeleteParty(t: Table, content: string): (Table, Outcome) {
    var parts := SplitWs(content);
    if |parts| < 2 then (t, Raised)
    else
      var name := parts[1];
      if HasKey(t, name) then (Remove(t, name), Replied(PartyDeleted(name)))
      else (t, Replied(PartyMissing(name)))
  }

  /** Deleting removes exactly the named party, keeping the others in order;
      an absent name or a missing argument leaves the table as it was. */
  lemma DeletePartySpec(t: Table, content: string)
    ensures var parts := SplitWs(content);
            && (|parts| < 2 ==> DeleteParty(t, content) == (t, Raised))
            && (|parts| >= 2 && !HasKey(t, parts[1]) ==>
                  DeleteParty(t, content) == (t, Replied(PartyMissing(parts[1]))))
            && (|parts| >= 2 && HasKey(t, parts[1]) ==>
                  var i := IndexOf(t, parts[1]).value;
                  DeleteParty(t, content) == (t[..i] + t[i + 1..], Replied(PartyDeleted(parts[1]))))
  {
  }

  /** After `deleteparty` the name is gone, every remaining party was there
      before with the same members, and both invariants still hold. */
  lemma DeletePartyPreserves(t: Table, content: string)
    requires ValidTable(t)
    ensures var r := DeleteParty(t, content).0;
            && ValidTable(r)
            && (|SplitWs(content)| >= 2 ==> !HasKey(r, SplitWs(content)[1]))
            && (forall p :: p in r ==> p in t)
    ensures SingleMembership(t) ==> SingleMembership(DeleteParty(t, content).0)
  {
    var parts := SplitWs(content);
    if |parts| >= 2 {
      RemovePartySpec(t, parts[1]);
    }
  }

  /** `del self.parties[name]` keeps the invariants of the table. */
  lemma RemovePartySpec(t: Table, name: string)
    requires ValidTable(t)
    ensures var r := Remove(t, name);
            && ValidTable(r)
            && !HasKey(r, name)
            && (forall p :: p in r ==> p in t)
            && (SingleMembership(t) ==> SingleMembership(r))
  {
    RemoveLookup(t, name);
    var r := Remove(t, name);
    forall i | 0 <= i < |r| ensures UniqueKeys(r[i].1) {
      assert r[i] in t;
    }
    if SingleMembership(t) {
      RemovePartySingle(t, name);
    }
  }

  /** Removing a party keeps every member in at most one party. */
  lemma RemovePartySingle(t: Table, name: string)
    requires SingleMembership(t)
    ensures SingleMembership(Remove(t, name))
  {
    if HasKey(t, name) {
      var r := Remove(t, name);
      var k := IndexOf(t, name).value;
      assert forall i :: 0 <= i < k ==> r[i] == t[i];
      assert forall i :: k <= i < |r| ==> r[i] == t[i + 1];
    }
  }

  // ----- addtimezone -----

  /** `addtimezone PARTY OFFSET [MEMBER]`. The loop that removes the member
      from every party rebinds `partyname`, so the member is written into the
      last party in insertion order, not the one named (which only has to
      exist). `int(offset)` is evaluated after the removal loop. */
  function AddTimezone(t: Table, content: string, author: int): (Table, Outcome) {
    var parts := SplitWs(content);
    if |parts| != 3 && |parts| != 4 then (t, Replied(AddUsage))
    else if !HasKey(t, parts[1]) then (t, Replied(PartyMissing(parts[1])))
    else
      match AddTarget(content, author)
      case None => (t, Replied(AddUsage))
      case Some(id) => AddMember(t, id, parts[2])
  }

  /** `addtimezone` once its arguments are read: the removal loop, then
      `int(offset)` and the write into the last party. */
  function AddMember(t: Table, id: int, offsetText: string): (Table, Outcome)
    requires |t| > 0
  {
    match ParseInt(offsetText)
    case None => (RemoveMember(t, id), Replied(InvalidOffset(offsetText)))
    case Some(o) => (AddToLast(t, id, o), Replied(MemberAdded(id, t[|t| - 1].0)))
  }

  /** The removal loop followed by `self.parties[partyname][id_] = offset`,
      with `partyname` left bound to the last party's name. */
  function AddToLast(t: Table, id: int, o: int): Table
    requires |t| > 0
  {
    var cleared := RemoveMember(t, id);
    var last := cleared[|cleared| - 1].0;
    Set(cleared, last, Set(Lookup(cleared, last).value, id, o))
  }

  /** Every party keeps its name and position and loses `id`; the last
      party then gets `id` appended with offset `o`. */
  lemma AddToLastShape(t: Table, id: int, o: int)
    requires ValidTable(t) && |t| > 0
    ensures var r := AddToLast(t, id, o);
            && |r| == |t|
            && (forall i :: 0 <= i < |t| ==> r[i].0 == t[i].0)
            && (forall i :: 0 <= i < |t| - 1 ==> r[i].1 == Remove(t[i].1, id))
            && r[|t| - 1].1 == Remove(t[|t| - 1].1, id) + [(id, o)]
  {
    var cleared := RemoveMember(t, id);
    var n := |t| - 1;
    var m := cleared[n].1;
    ClearedNamesUnique(t, id);
    AppendAfterRemove(t[n].1, id, o);
    LookupAt(cleared, n);
    SetAt(cleared, n, m + [(id, o)]);
  }

  /** The removal loop keeps the party names distinct. */
  lemma ClearedNamesUnique(t: Table, id: int)
    requires UniqueKeys(t)
    ensures UniqueKeys(RemoveMember(t, id))
  {
    assert forall i :: 0 <= i < |t| ==> RemoveMember(t, id)[i].0 == t[i].0;
  }

  /** Writing a member just deleted from a party appends it. */
  lemma AppendAfterRemove(p: Party, id: int, o: int)
    requires UniqueKeys(p)
    ensures Set(Remove(p, id), id, o) == Remove(p, id) + [(id, o)]
  {
    RemoveLookup(p, id);
  }

  /** The last party after the write: `id` moved to the end with offset `o`. */
  lemma MovedToEnd(p: Party, id: int, o: int)
    requires UniqueKeys(p)
    ensures var q := Remove(p, id) + [(id, o)];
            && UniqueKeys(q)
            && Lookup(q, id) == Some(o)
            && forall k :: k != id ==> Lookup(q, k) == Lookup(p, k)
  {
    RemoveLookup(p, id);
    SetLookup(Remove(p, id), id, o);
  }

  /** After `AddToLast` the member belongs to exactly one party, the last
      one, with offset `o`; every other member keeps its offset in every
      party, and the table stays well formed. */
  lemma AddToLastMembership(t: Table, id: int, o: int)
    requires ValidTable(t) && |t| > 0
    ensures var r := AddToLast(t, id, o);
            && ValidTable(r)
            && (forall i :: 0 <= i < |r| ==> (HasKey(r[i].1, id) <==> i == |r| - 1))
            && Lookup(r[|r| - 1].1, id) == Some(o)
            && (forall i, k :: 0 <= i < |r| && k != id ==> Lookup(r[i].1, k) == Lookup(t[i].1, k))
  {
    AddToLastShape(t, id, o);
    var r := AddToLast(t, id, o);
    forall i | 0 <= i < |r|
      ensures UniqueKeys(r[i].1)
      ensures HasKey(r[i].1, id) <==> i == |r| - 1
      ensures i == |r| - 1 ==> Lookup(r[i].1, id) == Some(o)
      ensures forall k :: k != id ==> Lookup(r[i].1, k) == Lookup(t[i].1, k)
    {
      PartyAfterAdd(t[i].1, id, o, i == |r| - 1);
    }
    assert UniqueKeys(r) by {
      assert forall i :: 0 <= i < |t| ==> r[i].0 == t[i].0;
    }
  }

  /** A party's members after `AddToLast`: `id` removed, and appended with
      offset `o` in the last party. */
  lemma PartyAfterAdd(p: Party, id: int, o: int, last: bool)
    requires UniqueKeys(p)
    ensures var m := if last then Remove(p, id) + [(id, o)] else Remove(p, id);
            && UniqueKeys(m)
            && (HasKey(m, id) <==> last)
            && (last ==> Lookup(m, id) == Some(o))
            && forall k :: k != id ==> Lookup(m, k) == Lookup(p, k)
  {
    if last {
      MovedToEnd(p, id, o);
    } else {
      RemoveLookup(p, id);
    }
  }

  /** `addtimezone`'s write keeps every member in at most one party. */
  lemma AddToLastSingle(t: Table, id: int, o: int)
    requires ValidTable(t) && |t| > 0 && SingleMembership(t)
    ensures SingleMembership(AddToLast(t, id, o))
  {
    AddToLastMembership(t, id, o);
    var r := AddToLast(t, id, o);
    forall i, j, u | 0 <= i < |r| && 0 <= j < |r| && HasKey(r[i].1, u) && HasKey(r[j].1, u)
      ensures i == j
    {
      if u != id {
        assert Lookup(r[i].1, u) == Lookup(t[i].1, u);
        assert Lookup(r[j].1, u) == Lookup(t[j].1, u);
      }
    }
  }

  /** The member `addtimezone` acts on, if its arguments get that far. */
  function AddTarget(content: string, author: int): Option<int> {
    var parts := SplitWs(content);
    if |parts| == 4 then ParseInt(parts[3]) else Some(author)
  }

  /** Wrong argument count, unknown party or a non-integer member id: the
      table is unchanged. */
  lemma AddTimezoneRejects(t: Table, content: string, author: int)
    requires var parts := SplitWs(content);
             || (|parts| != 3 && |parts| != 4)
             || !HasKey(t, parts[1])
             || AddTarget(content, author).None?
    ensures AddTimezone(t, content, author).0 == t
    ensures AddTimezone(t, content, author).1.Replied?
  {
  }

  /** A non-integer offset still removes the member from every party (the
      removal loop runs first): a partial write, replied to as
      "Invalid offset". */
  lemma AddTimezoneInvalidOffset(t: Table, content: string, author: int)
    requires ValidTable(t)
    requires var parts := SplitWs(content);
             && (|parts| == 3 || |parts| == 4)
             && HasKey(t, parts[1])
             && AddTarget(content, author).Some?
             && ParseInt(parts[2]).None?
    ensures var id := AddTarget(content, author).value;
            var r := AddTimezone(t, content, author).0;
            && r == RemoveMember(t, id)
            && (forall i :: 0 <= i < |r| ==> !HasKey(r[i].1, id))
            && AddTimezone(t, content, author).1 == Replied(InvalidOffset(SplitWs(content)[2]))
  {
    RemoveMemberSpec(t, AddTarget(content, author).value);
  }

  /** A successful `addtimezone` writes the member into the last party and
      names that party in its reply. */
  lemma AddTimezoneAdds(t: Table, content: string, author: int)
    requires var parts := SplitWs(content);
             && (|parts| == 3 || |parts| == 4)
             && HasKey(t, parts[1])
             && AddTarget(content, author).Some?
             && ParseInt(parts[2]).Some?
    ensures |t| > 0
    ensures var id := AddTarget(content, author).value;
            AddTimezone(t, content, author) ==
              (AddToLast(t, id, ParseInt(SplitWs(content)[2]).value), Replied(MemberAdded(id, t[|t| - 1].0)))
  {
  }

  /** `addtimezone` keeps the table well formed and keeps every member in
      at most one party, on every path. */
  lemma AddTimezonePreserves(t: Table, content: string, author: int)
    requires ValidTable(t) && SingleMembership(t)
    ensures ValidTable(AddTimezone(t, content, author).0)
    ensures SingleMembership(AddTimezone(t, content, author).0)
  {
    var parts := SplitWs(content);
    var id := AddTarget(content, author);
    if (|parts| == 3 || |parts| == 4) && HasKey(t, parts[1]) && id.Some? {
      if ParseInt(parts[2]).Some? {
        AddTimezoneAdds(t, content, author);
        AddToLastMembership(t, id.value, ParseInt(parts[2]).value);
        AddToLastSingle(t, id.value, ParseInt(parts[2]).value);
      } else {
        AddTimezoneInvalidOffset(t, content, author);
        RemoveMemberSingle(t, id.value);
      }
    } else {
      AddTimezoneRejects(t, content, author);
    }
  }

  /** Removing a member from every party keeps single membership. */
  lemma RemoveMemberSingle(t: Table, u: int)
    requires ValidTable(t) && SingleMembership(t)
    ensures ValidTable(RemoveMember(t, u)) && SingleMembership(RemoveMember(t, u))
  {
    RemoveMemberSpec(t, u);
    var r := RemoveMember(t, u);
    forall i, j, k | 0 <= i < |r| && 0 <= j < |r| && HasKey(r[i].1, k) && HasKey(r[j].1, k)
      ensures i == j
    {
      assert k != u;
      assert Lookup(r[i].1, k) == Lookup(t[i].1, k);
      assert Lookup(r[j].1, k) == Lookup(t[j].1, k);
    }
  }

  // ----- convert, convert-as -----

  /** `do_convert`'s comprehension: one line per member, in member order,
      showing `dt` in the member's zone; `None` where `utc` raises for some
      member's offset. */
  function Lines(party: Party, dt: Instant): Option<seq<Line>> {
    if party == [] then Some([])
    else
      match Utils.Utc(party[0].1)
      case None => None
      case Some(z) =>
        match Lines(party[1..], dt)
        case None => None
        case Some(rest) => Some([Line(party[0].0, party[0].1, LocalIn(dt, z))] + rest)
  }

  /** The naive time read at the sender's offset, then shown to the party. */
  function Show(offset: int, party: Party, naive: int): Outcome {
    match Utils.Utc(offset)
    case None => Raised
    case Some(tz) =>
      match Lines(party, Attach(naive, tz))
      case None => Raised
      case Some(ls) => Replied(Converted(ls))
  }

  /** Some offset outside the range `utc` accepts. */
  ghost predicate SomeOffsetOutOfRange(party: Party) {
    exists i :: 0 <= i < |party| && !(-24 < party[i].1 < 24)
  }

  lemma {:induction false} LinesSpec(party: Party, dt: Instant)
    ensures Lines(party, dt).None? <==> SomeOffsetOutOfRange(party)
    ensures Lines(party, dt).Some? ==> |Lines(party, dt).value| == |party|
    ensures Lines(party, dt).Some? ==> forall i :: 0 <= i < |party| ==>
              Lines(party, dt).value[i] == Line(party[i].0, party[i].1, dt.utcMinutes + 60 * party[i].1)
  {
    if party != [] {
      var rest := party[1..];
      LinesSpec(rest, dt);
      assert forall i :: 1 <= i < |party| ==> party[i] == rest[i - 1];
      if !(-24 < party[0].1 < 24) {
        assert Lines(party, dt).None?;
      } else if SomeOffsetOutOfRange(rest) {
        var k :| 0 <= k < |rest| && !(-24 < rest[k].1 < 24);
        assert party[k + 1] == rest[k];
      } else {
        var ls := [Line(party[0].0, party[0].1, dt.utcMinutes + 60 * party[0].1)] + Lines(rest, dt).value;
        assert Lines(party, dt) == Some(ls);
        forall i | 0 <= i < |party|
          ensures ls[i] == Line(party[i].0, party[i].1, dt.utcMinutes + 60 * party[i].1)
        {
          if i > 0 {
            assert ls[i] == Lines(rest, dt).value[i - 1];
          }
        }
      }
    }
  }

  /** What `convert` shows: one line per member of the party, in member
      order, with the member's `+hh` label and the naive time moved by
      (member offset - sender offset) hours. It raises exactly when some
      offset is outside `utc`'s range. */
  lemma ShowSpec(offset: int, party: Party, naive: int)
    ensures Show(offset, party, naive).Raised? <==> !(-24 < offset < 24) || SomeOffsetOutOfRange(party)
    ensures Show(offset, party, naive).Replied? ==>
              && Show(offset, party, naive).reply.Converted?
              && |Show(offset, party, naive).reply.lines| == |party|
              && forall i :: 0 <= i < |party| ==>
                   Show(offset, party, naive).reply.lines[i] ==
                     Line(party[i].0, party[i].1, naive + 60 * (party[i].1 - offset))
  {
    if -24 < offset < 24 {
      var dt := Attach(naive, Utils.Utc(offset).value);
      LinesSpec(party, dt);
    }
  }

  /** Any two lines of one reply show clocks that differ by the difference
      of the members' offsets, around the week (so the weekday follows
      across midnight and across the end of the week). */
  lemma ShowPairShift(offset: int, party: Party, naive: int, i: nat, j: nat)
    requires Show(offset, party, naive).Replied?
    requires i < |party| && j < |party|
    ensures Show(offset, party, naive).reply.Converted?
    ensures var ls := Show(offset, party, naive).reply.lines;
            |ls| == |party| &&
            WeekMinutes(Shown(ls[i])) ==
              (WeekMinutes(Shown(ls[j])) + 60 * (party[i].1 - party[j].1)) % MINUTES_PER_WEEK
  {
    ShowSpec(offset, party, naive);
    var ls := Show(offset, party, naive).reply.lines;
    var delta := 60 * (party[i].1 - party[j].1);
    assert ls[i].local == ls[j].local + delta;
    ClockShift(ls[j].local, delta);
  }

  /** Once the sender's party is found: `utc(offset)`, then the assertion
      that the message came from a text channel, then `do_convert`. Both
      the assertion and `utc` raise, so their order is not observable. */
  function ShowIn(inTextChannel: bool, offset: int, party: Party, naive: int): Outcome {
    if inTextChannel then Show(offset, party, naive) else Raised
  }

  /** `convert TIME`: TIME is everything after the first single space. */
  function Convert(t: Table, content: string, author: int, inTextChannel: bool, env: Env): Outcome {
    var parts := SplitOnce(content);
    if |parts| != 2 then Replied(ConvertUsage)
    else
      var time := parts[1];
      match env.parseTime(time)
      case None => Replied(InvalidTimestamp(time))
      case Some(naive) =>
        match PartyOf(t, author)
        case None => Replied(NotInAnyParty)
        case Some((offset, _, party)) => ShowIn(inTextChannel, offset, party, naive)
  }

  /** `convert` replies with the usage text exactly when the message has no
      space; otherwise, given a parsed time, it says the sender is in no
      party exactly when no party holds the sender, and otherwise shows the
      time to the sender's first party (see `ShowSpec`), or raises when the
      message did not come from a text channel. */
  lemma ConvertSpec(t: Table, content: string, author: int, inTextChannel: bool, env: Env)
    ensures Convert(t, content, author, inTextChannel, env) == Replied(ConvertUsage) <==> ' ' !in content
    ensures ' ' in content && env.parseTime(SplitOnce(content)[1]).Some? ==>
              (Convert(t, content, author, inTextChannel, env) == Replied(NotInAnyParty) <==>
                 forall j :: 0 <= j < |t| ==> !HasKey(t[j].1, author))
    ensures forall naive, o, n, p ::
              ' ' in content && env.parseTime(SplitOnce(content)[1]) == Some(naive) &&
              PartyOf(t, author) == Some((o, n, p)) ==>
                Convert(t, content, author, inTextChannel, env) ==
                  (if inTextChannel then Show(o, p, naive) else Raised)
  {
  }

  /** `_, as_str, time = content.split(" ", maxsplit=1)`: a three-name
      unpacking, `None` for the `ValueError` it raises otherwise. */
  function Unpack3(parts: seq<string>): Option<(string, string, string)> {
    if |parts| == 3 then Some((parts[0], parts[1], parts[2])) else None
  }

  /** `convert-as ID TIME`, as written. */
  function ConvertAs(t: Table, content: string, inTextChannel: bool, env: Env): Outcome {
    match Unpack3(SplitOnce(content))
    case None => Replied(ConvertAsUsage)
    case Some((_, asText, time)) => ConvertAsFor(t, asText, time, inTextChannel, env)
  }

  /** The rest of `convert-as`, after a successful unpacking. */
  function ConvertAsFor(t: Table, asText: string, time: string, inTextChannel: bool, env: Env): Outcome {
    match ParseInt(asText)
    case None => Replied(ConvertAsUsage)
    case Some(member) =>
      match env.parseTime(time)
      case None => Replied(InvalidTimestamp(time))
      case Some(naive) =>
        match PartyOf(t, member)
        case None => Replied(MemberNotInAnyParty(member))
        case Some((offset, _, party)) => ShowIn(inTextChannel, offset, party, naive)
  }

  /** A split with `maxsplit=1` yields at most two names, so the unpacking
      into three always raises: `convert-as` always answers with its usage
      text. */
  lemma ConvertAsAlwaysUsage(t: Table, content: string, inTextChannel: bool, env: Env)
    ensures ConvertAs(t, content, inTextChannel, env) == Replied(ConvertAsUsage)
  {
    assert |SplitOnce(content)| <= 2;
  }

  // ----- parties, help, hof -----

  /** `parties`: an embed listing every party and member (rendering not modelled). */
  function ListParties(t: Table): Outcome {
    Replied(PartyList(t))
  }

  /** `help`: an embed listing the commands (rendering not modelled). */
  function ShowHelp(): Outcome {
    Replied(Help)
  }

  /** `hof MESSAGE_ID`: exactly one integer argument, then the message must
      exist in the channel. `add_to_hof` raises (its `isinstance` assertion)
      when the Hall of Fame channel is missing, before the reply is sent. */
  function ManualHof(content: string, env: Env): Outcome {
    var parts := SplitWs(content);
    if |parts| != 2 then Replied(HofUsage)
    else
      match ParseInt(parts[1])
      case None => Replied(HofUsage)
      case Some(id) =>
        if !env.messageExists(id) then Replied(HofNotFound)
        else if env.hofChannelExists then Replied(HofAdded(id))
        else Raised
  }

  /** A repost happens exactly for a well-formed command naming a message
      that exists, with the Hall of Fame channel present; an unknown id gets
      "not found" and no repost. */
  lemma ManualHofSpec(content: string, env: Env, id: int)
    ensures ManualHof(content, env).Raised? ==> !env.hofChannelExists
    ensures var parts := SplitWs(content);
            ManualHof(content, env) == Replied(HofAdded(id)) <==>
              |parts| == 2 && ParseInt(parts[1]) == Some(id) && env.messageExists(id) && env.hofChannelExists
    ensures var parts := SplitWs(content);
            |parts| == 2 && ParseInt(parts[1]) == Some(id) && !env.messageExists(id) ==>
              ManualHof(content, env) == Replied(HofNotFound)
  {
  }
}
