/** The `Bot` object of chronos/bot.py: its party table, its load flag and
    the storage message it keeps the table in, with the methods that update
    them step by step. Each method is proved against the functions of
    `Parties`, `Handlers` and `Dispatch`. */
module ChronosBot {
  import opened Wrappers
  import opened Dicts
  import opened Text
  import opened Parties
  import Handlers
  import Dispatch

  /** The repair loop of `load_parties` for one party: for each string key,
      in order, `del party[key]` and then `party[int(key)] = value`; `None`
      where `int(key)` raises. */
  method RepairParty(p: RawParty) returns (r: Option<Party>)
    ensures r == RepairedParty(p)
  {
    var keys := StrKeys(p);
    var party := p;
    var i := 0;
    while i < |keys|
      invariant 0 <= i <= |keys|
      invariant RepairKeys(p, keys) == RepairKeys(party, keys[i..])
    {
      assert keys[i..][0] == keys[i] && keys[i..][1..] == keys[i + 1..];
      var next := RepairKey(party, keys[i]);
      if next.None? {
        return None;
      }
      party := next.value;
      i := i + 1;
    }
    r := Some(IntPart(party));
  }

  /** One round of the repair loop: `value = party[key]`, `del party[key]`,
      `party[int(key)] = value`; `None` where `int(key)` raises. */
  method RepairKey(party: RawParty, key: string) returns (next: Option<RawParty>)
    ensures next == RepairStep(party, key)
  {
    var value := Lookup(party, StrKey(key));
    if value.None? {
      return Some(party);
    }
    var removed := Remove(party, StrKey(key));
    var n := ParseInt(key);
    if n.None? {
      return None;
    }
    next := Some(Set(removed, IntKey(n.value), value.value));
  }

  /** The repair loop of `load_parties` over every party, in order; `None`
      where some party's repair raises. */
  method RepairAll(raw: RawTable) returns (r: Option<Table>)
    ensures r == RepairTable(raw)
  {
    var table: Table := [];
    var i := 0;
    while i < |raw|
      invariant 0 <= i <= |raw|
      invariant |table| == i
      invariant forall j :: 0 <= j < i ==>
                  table[j].0 == raw[j].0 && Some(table[j].1) == RepairedParty(raw[j].1)
    {
      var party := RepairParty(raw[i].1);
      if party.None? {
        RepairTableFails(raw, i);
        return None;
      }
      table := table + [(raw[i].0, party.value)];
      i := i + 1;
    }
    RepairTableOf(raw, table);
    r := Some(table);
  }

  class Bot {
    /** `self.parties` */
    var parties: Table
    /** `self._loaded_parties` */
    var loaded: bool
    /** The content of the storage message, `None` while there is none. */
    var stored: Option<RawTable>
    /** How many loads have completed. */
    ghost var loads: nat

    /** The table is loaded at most once: exactly once after the flag is set. */
    ghost predicate Valid()
      reads this
    {
      loads == if loaded then 1 else 0
    }

    function State(): Dispatch.BotState
      reads this
    {
      Dispatch.BotState(parties, loaded, stored)
    }

    /** A fresh bot: an empty table, nothing loaded, and whatever the storage
        channel already holds. */
    constructor (storage: Option<RawTable>)
      ensures Valid()
      ensures parties == [] && !loaded && stored == storage
    {
      parties := [];
      loaded := false;
      stored := storage;
      loads := 0;
    }

    /** `load_parties`: returns whether it completed. */
    method LoadParties() returns (ok: bool)
      modifies this
      ensures (if ok then Some(parties) else None) == Dispatch.Load(old(State()))
      ensures !ok ==> parties == old(parties)
      ensures loaded == old(loaded) && stored == old(stored) && loads == old(loads)
    {
      if stored.None? {
        return true;
      }
      var table := RepairAll(stored.value);
      if table.None? {
        return false;
      }
      parties := table.value;
      ok := true;
    }

    /** `store_parties`: the storage message is created or edited to hold
        the table. */
    method StoreParties()
      modifies this
      ensures stored == Some(LiftTable(parties))
      ensures parties == old(parties) && loaded == old(loaded) && loads == old(loads)
    {
      stored := Some(LiftTable(parties));
    }

    method CreateParty(msg: Handlers.Message) returns (out: Handlers.Outcome)
      modifies this
      ensures (parties, out) == Handlers.CreateParty(old(parties), msg.content)
      ensures loaded == old(loaded) && stored == old(stored) && loads == old(loads)
    {
      var parts := SplitWs(msg.content);
      if |parts| < 2 {
        return Handlers.Raised;
      }
      var name := parts[1];
      if HasKey(parties, name) {
        return Handlers.Replied(Handlers.PartyExists(name));
      }
      parties := Set(parties, name, []);
      out := Handlers.Replied(Handlers.PartyCreated(name));
    }

    method DeleteParty(msg: Handlers.Message) returns (out: Handlers.Outcome)
      modifies this
      ensures (parties, out) == Handlers.DeleteParty(old(parties), msg.content)
      ensures loaded == old(loaded) && stored == old(stored) && loads == old(loads)
    {
      var parts := SplitWs(msg.content);
      if |parts| < 2 {
        return Handlers.Raised;
      }
      var name := parts[1];
      if HasKey(parties, name) {
        parties := Remove(parties, name);
        out := Handlers.Replied(Handlers.PartyDeleted(name));
      } else {
        out := Handlers.Replied(Handlers.PartyMissing(name));
      }
    }

    /** `addtimezone`, with its removal loop rebinding `partyname`. */
    method AddTimezone(msg: Handlers.Message) returns (out: Handlers.Outcome)
      modifies this
      ensures (parties, out) == Handlers.AddTimezone(old(parties), msg.content, msg.authorId)
      ensures loaded == old(loaded) && stored == old(stored) && loads == old(loads)
    {
      var parts := SplitWs(msg.content);
      if |parts| != 3 && |parts| != 4 {
        return Handlers.Replied(Handlers.AddUsage);
      }
      var partyname := parts[1];
      var offset := parts[2];
      if !HasKey(parties, partyname) {
        return Handlers.Replied(Handlers.PartyMissing(partyname));
      }
      var id := if |parts| == 4 then ParseInt(parts[3]) else Some(msg.authorId);
      if id.None? {
        return Handlers.Replied(Handlers.AddUsage);
      }
      out := AddMember(id.value, offset);
    }

    /** The rest of `addtimezone`: the removal loop, then `int(offset)` and
        `self.parties[partyname][id_] = ...` with the rebound `partyname`. */
    method AddMember(member: int, offset: string) returns (out: Handlers.Outcome)
      requires |parties| > 0
      modifies this
      ensures (parties, out) == Handlers.AddMember(old(parties), member, offset)
      ensures loaded == old(loaded) && stored == old(stored) && loads == old(loads)
    {
      ghost var t := parties;
      var partyname := RemoveFromAll(member);
      assert partyname == t[|t| - 1].0;
      var o := ParseInt(offset);
      if o.None? {
        return Handlers.Replied(Handlers.InvalidOffset(offset));
      }
      var table := parties;
      HasLastKey(table);
      var members := Set(Lookup(table, partyname).value, member, o.value);
      parties := Set(table, partyname, members);
      out := Handlers.Replied(Handlers.MemberAdded(member, partyname));
      assert parties == Handlers.AddToLast(t, member, o.value);
      assert Handlers.AddMember(t, member, offset) == (parties, out);
    }

    /** The removal loop of `addtimezone`: `del party[member]` in every party
      that holds it. Returns the name the loop leaves `partyname` bound to,
      the last party's. */
    method RemoveFromAll(member: int) returns (partyname: string)
      requires |parties| > 0
      modifies this
      ensures parties == RemoveMember(old(parties), member)
      ensures partyname == parties[|parties| - 1].0
      ensures loaded == old(loaded) && stored == old(stored) && loads == old(loads)
    {
      var table := parties;
      var i := 0;
      partyname := table[0].0;
      while i < |table|
        invariant 0 <= i <= |table| == |old(parties)|
        invariant forall j :: 0 <= j < i ==> table[j] == (old(parties)[j].0, Remove(old(parties)[j].1, member))
        invariant forall j :: i <= j < |table| ==> table[j] == old(parties)[j]
        invariant i > 0 ==> partyname == table[i - 1].0
      {
        var (name, party) := table[i];
        partyname := name;
        if HasKey(party, member) {
          table := table[i := (name, Remove(party, member))];
        }
        i := i + 1;
      }
      assert table == RemoveMember(old(parties), member);
      parties := table;
    }

    /** `_party_of`: the search loop with its early return. */
    method PartyOf(u: int) returns (r: Option<(int, string, Party)>)
      ensures r == Parties.PartyOf(parties, u)
    {
      var i := 0;
      while i < |parties|
        invariant 0 <= i <= |parties|
        invariant forall j :: 0 <= j < i ==> !HasKey(parties[j].1, u)
      {
        var (name, party) := parties[i];
        if HasKey(party, u) {
          return Some((Lookup(party, u).value, name, party));
        }
        i := i + 1;
      }
      return None;
    }

    /** `convert`, finding the sender's party with `PartyOf`. */
    method Convert(msg: Handlers.Message, env: Handlers.Env) returns (out: Handlers.Outcome)
      ensures out == Handlers.Convert(parties, msg.content, msg.authorId, msg.inTextChannel, env)
    {
      var parts := SplitOnce(msg.content);
      if |parts| != 2 {
        return Handlers.Replied(Handlers.ConvertUsage);
      }
      var time := parts[1];
      var naive := env.parseTime(time);
      if naive.None? {
        return Handlers.Replied(Handlers.InvalidTimestamp(time));
      }
      var found := PartyOf(msg.authorId);
      if found.None? {
        return Handlers.Replied(Handlers.NotInAnyParty);
      }
      var (offset, _, party) := found.value;
      if !msg.inTextChannel {
        return Handlers.Raised;
      }
      out := Handlers.Show(offset, party, naive.value);
    }

    /** `await meth(self, message)` for the command `c`. */
    method Execute(c: Dispatch.Command, msg: Handlers.Message, env: Handlers.Env) returns (out: Handlers.Outcome)
      modifies this
      ensures (parties, out) == Dispatch.Handle(c, old(parties), msg, env)
      ensures loaded == old(loaded) && stored == old(stored) && loads == old(loads)
    {
      if c.CreateParty? {
        out := CreateParty(msg);
      } else if c.DeleteParty? {
        out := DeleteParty(msg);
      } else if c.AddTimezone? {
        out := AddTimezone(msg);
      } else if c.Convert? {
        out := Convert(msg, env);
      } else {
        out := Dispatch.Handle(c, parties, msg, env).1;
      }
    }

    /** `on_message`: one step of the dispatcher. */
    method OnMessage(msg: Handlers.Message, env: Handlers.Env) returns (d: Dispatch.Dispatched)
      requires Valid()
      modifies this
      ensures Valid()
      ensures State() == Dispatch.Step(old(State()), msg, env).state
      ensures d == Dispatch.Step(old(State()), msg, env).dispatched
    {
      if Dispatch.Ignores(msg) {
        return Dispatch.Ignored;
      }
      if !loaded {
        var ok := LoadParties();
        if !ok {
          return Dispatch.LoadFailed;
        }
        loaded := true;
        loads := loads + 1;
      }
      var token := Dispatch.Token(msg.content);
      var command := Dispatch.ParseCommand(token);
      if command.None? {
        return Dispatch.UnknownCommand(token);
      }
      var c := command.value;
      var out := Execute(c, msg, env);
      StoreParties();
      d := Dispatch.Handled(c, out);
    }
  }
}
