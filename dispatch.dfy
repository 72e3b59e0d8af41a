/** `on_message` and `on_reaction_add` of chronos/bot.py as functions of the
    bot's state: which messages are ignored, when the table is loaded from
    the storage message, how the command token is matched and when the
    table is stored back. */
module Dispatch {
  import opened Wrappers
  import opened Text
  import opened Parties
  import Handlers

  const COMMAND_PREFIX := "c!"
  const HOF_EMOJI := "nat20"
  const HOF_COUNT := 4

  /** The entries of `COMMANDS`. */
  datatype Command =
    | CreateParty | DeleteParty | ListParties | AddTimezone
    | ManualHof | Convert | ConvertAs | ShowHelp

  /** The key under which `COMMANDS` holds each command. */
  function CommandName(c: Command): string {
    match c
    case CreateParty => "createparty"
    case DeleteParty => "deleteparty"
    case ListParties => "parties"
    case AddTimezone => "addtimezone"
    case ManualHof => "hof"
    case Convert => "convert"
    case ConvertAs => "convert-as"
    case ShowHelp => "help"
  }

  /** `COMMANDS[token]`, `None` where `token not in COMMANDS`. */
  function ParseCommand(token: string): Option<Command> {
    if token == "createparty" then Some(CreateParty)
    else if token == "deleteparty" then Some(DeleteParty)
    else if token == "parties" then Some(ListParties)
    else if token == "addtimezone" then Some(AddTimezone)
    else if token == "hof" then Some(ManualHof)
    else if token == "convert" then Some(Convert)
    else if token == "convert-as" then Some(ConvertAs)
    else if token == "help" then Some(ShowHelp)
    else None
  }

  /** A token selects a command exactly when it is that command's key: no
      prefix matching, no case folding. */
  lemma ParseCommandExact(token: string, c: Command)
    ensures ParseCommand(token) == Some(c) <==> token == CommandName(c)
  {
  }

  /** Every command's key selects it back. */
  lemma ParseCommandName(c: Command)
    ensures ParseCommand(CommandName(c)) == Some(c)
  {
    ParseCommandExact(CommandName(c), c);
  }

  /** `message.content.split(" ", 1)[0][len(COMMAND_PREFIX):]` */
  function Token(content: string): string {
    var head := SplitOnce(content)[0];
    if |head| >= |COMMAND_PREFIX| then head[|COMMAND_PREFIX|..] else ""
  }

  /** For a message that starts with the prefix, the token is the text
      between the prefix and the first space (or the end). */
  lemma TokenSpec(content: string)
    requires StartsWith(content, COMMAND_PREFIX)
    ensures ' ' !in Token(content)
    ensures content == COMMAND_PREFIX + Token(content)
            || (exists rest :: content == COMMAND_PREFIX + Token(content) + " " + rest)
  {
    var parts := SplitOnce(content);
    var head := parts[0];
    assert head[..2] == content[..2];
    assert head == COMMAND_PREFIX + Token(content);
    if |parts| == 2 {
      assert content == COMMAND_PREFIX + Token(content) + " " + parts[1];
    }
  }

  /** The state `on_message` reads and writes: the party table, the
      `_loaded_parties` flag, and the content of the storage message
      (`None` while the bot has none). */
  datatype BotState = BotState(parties: Table, loaded: bool, stored: Option<RawTable>)

  /** `load_parties`: the repaired snapshot when there is a storage message,
      the table as it is when there is none; `None` where it raises. */
  function Load(s: BotState): Option<Table> {
    match s.stored
    case None => Some(s.parties)
    case Some(raw) => RepairTable(raw)
  }

  /** Runs the handler selected by `c` on the table. */
  function Handle(c: Command, t: Table, msg: Handlers.Message, env: Handlers.Env): (Table, Handlers.Outcome) {
    match c
    case CreateParty => Handlers.CreateParty(t, msg.content)
    case DeleteParty => Handlers.DeleteParty(t, msg.content)
    case ListParties => (t, Handlers.ListParties(t))
    case AddTimezone => Handlers.AddTimezone(t, msg.content, msg.authorId)
    case ManualHof => (t, Handlers.ManualHof(msg.content, env))
    case Convert => (t, Handlers.Convert(t, msg.content, msg.authorId, msg.inTextChannel, env))
    case ConvertAs => (t, Handlers.ConvertAs(t, msg.content, msg.inTextChannel, env))
    case ShowHelp => (t, Handlers.ShowHelp())
  }

  /** Only `createparty`, `deleteparty` and `addtimezone` can change the table. */
  lemma HandleReadOnly(c: Command, t: Table, msg: Handlers.Message, env: Handlers.Env)
    requires c != CreateParty && c != DeleteParty && c != AddTimezone
    ensures Handle(c, t, msg, env).0 == t
  {
  }

  /** Every handler keeps the table well formed and keeps each member in at
      most one party. */
  lemma HandlePreserves(c: Command, t: Table, msg: Handlers.Message, env: Handlers.Env)
    requires ValidTable(t) && SingleMembership(t)
    ensures ValidTable(Handle(c, t, msg, env).0)
    ensures SingleMembership(Handle(c, t, msg, env).0)
  {
    match c
    case CreateParty => Handlers.CreatePartySpec(t, msg.content);
    case DeleteParty => Handlers.DeletePartyPreserves(t, msg.content);
    case AddTimezone => Handlers.AddTimezonePreserves(t, msg.content, msg.authorId);
    case _ => HandleReadOnly(c, t, msg, env);
  }

  /** What `on_message` did with a message. */
  datatype Dispatched =
    | Ignored
    | LoadFailed
    | UnknownCommand(token: string)
    | Handled(command: Command, outcome: Handlers.Outcome)

  /** The state after one message, whether `load_parties` ran, and what was
      done. */
  datatype StepResult = StepResult(state: BotState, loadRan: bool, dispatched: Dispatched)

  /** Messages from bots, from the bot itself, or without the prefix. */
  predicate Ignores(msg: Handlers.Message) {
    msg.authorIsBot || msg.authorIsSelf || !StartsWith(msg.content, COMMAND_PREFIX)
  }

  /** `on_message`. A load that raises leaves the flag unset and ends the
      call; a handler that raises is caught, and the table is stored after
      every matched command. */
  function Step(s: BotState, msg: Handlers.Message, env: Handlers.Env): StepResult {
    if Ignores(msg) then StepResult(s, false, Ignored)
    else
      var table := if s.loaded then Some(s.parties) else Load(s);
      if table.None? then StepResult(s, true, LoadFailed)
      else
        var token := Token(msg.content);
        match ParseCommand(token)
        case None => StepResult(BotState(table.value, true, s.stored), !s.loaded, UnknownCommand(token))
        case Some(c) =>
          var (t1, outcome) := Handle(c, table.value, msg, env);
          StepResult(BotState(t1, true, Some(LiftTable(t1))), !s.loaded, Handled(c, outcome))
  }

  /** An ignored message causes no load, no store and no change. */
  lemma StepIgnored(s: BotState, msg: Handlers.Message, env: Handlers.Env)
    ensures Ignores(msg) <==> Step(s, msg, env).dispatched == Ignored
    ensures Ignores(msg) ==> Step(s, msg, env).state == s && !Step(s, msg, env).loadRan
  {
  }

  /** The load runs only while the flag is unset, and a load that succeeds
      sets it. */
  lemma StepLoad(s: BotState, msg: Handlers.Message, env: Handlers.Env)
    ensures Step(s, msg, env).loadRan ==> !s.loaded
    ensures Step(s, msg, env).loadRan && !Step(s, msg, env).dispatched.LoadFailed? ==>
              Step(s, msg, env).state.loaded
    ensures !Step(s, msg, env).state.loaded ==> !s.loaded
    ensures !s.loaded && !Ignores(msg) ==> Step(s, msg, env).loadRan
  {
  }

  /** An unknown command stores nothing; a known command stores the table it
      leaves, whether or not its handler raised, and reloading that storage
      gives the same table back. */
  lemma StepStore(s: BotState, msg: Handlers.Message, env: Handlers.Env)
    ensures !Step(s, msg, env).dispatched.Handled? ==> Step(s, msg, env).state.stored == s.stored
    ensures Step(s, msg, env).dispatched.Handled? ==>
              && Step(s, msg, env).state.stored == Some(LiftTable(Step(s, msg, env).state.parties))
              && Load(Step(s, msg, env).state) == Some(Step(s, msg, env).state.parties)
  {
    var r := Step(s, msg, env);
    if r.dispatched.Handled? {
      RepairTableLift(r.state.parties);
    }
  }

  /** A command runs on the loaded table: after a successful load, the
      handler sees the repaired snapshot. */
  lemma StepHandlesLoaded(s: BotState, msg: Handlers.Message, env: Handlers.Env)
    requires Step(s, msg, env).dispatched.Handled?
    ensures var c := Step(s, msg, env).dispatched.command;
            var t := if s.loaded then s.parties else Load(s).value;
            && (s.loaded || Load(s).Some?)
            && ParseCommand(Token(msg.content)) == Some(c)
            && (Step(s, msg, env).state.parties, Step(s, msg, env).dispatched.outcome) == Handle(c, t, msg, env)
  {
  }

  /** A load that raises changes nothing, so every later command message
      finds the flag unset and raises again the same way. */
  lemma LoadFailedRepeats(s: BotState, msg: Handlers.Message, next: Handlers.Message, env: Handlers.Env)
    requires Step(s, msg, env).dispatched == LoadFailed
    requires !Ignores(next)
    ensures Step(s, msg, env).state == s
    ensures Step(Step(s, msg, env).state, next, env).dispatched == LoadFailed
  {
  }

  /** A loaded state that is well formed and has single membership stays so. */
  lemma StepPreserves(s: BotState, msg: Handlers.Message, env: Handlers.Env)
    requires s.loaded && ValidTable(s.parties) && SingleMembership(s.parties)
    ensures ValidTable(Step(s, msg, env).state.parties)
    ensures SingleMembership(Step(s, msg, env).state.parties)
  {
    if !Ignores(msg) {
      var c := ParseCommand(Token(msg.content));
      if c.Some? {
        HandlePreserves(c.value, s.parties, msg, env);
      }
    }
  }

  /** The table invariants every handler keeps. */
  ghost predicate Healthy(t: Table) {
    ValidTable(t) && SingleMembership(t)
  }

  /** The current table is healthy, and so is the table the pending load
      would install while the flag is unset. */
  ghost predicate HealthyState(s: BotState) {
    && Healthy(s.parties)
    && (!s.loaded && s.stored.Some? && RepairTable(s.stored.value).Some? ==>
          Healthy(RepairTable(s.stored.value).value))
  }

  /** Every step, the loading one included, keeps the state healthy. */
  lemma StepKeepsHealthy(s: BotState, msg: Handlers.Message, env: Handlers.Env)
    requires HealthyState(s)
    ensures HealthyState(Step(s, msg, env).state)
  {
    if !Ignores(msg) {
      var table := if s.loaded then Some(s.parties) else Load(s);
      var c := ParseCommand(Token(msg.content));
      if table.Some? && c.Some? {
        HandlePreserves(c.value, table.value, msg, env);
      }
    }
  }

  /** Over any sequence of messages a healthy state stays healthy. */
  lemma {:induction false} RunKeepsHealthy(s: BotState, msgs: seq<Handlers.Message>, env: Handlers.Env)
    requires HealthyState(s)
    ensures HealthyState(Run(s, msgs, env).0)
    decreases |msgs|
  {
    if msgs != [] {
      StepKeepsHealthy(s, msgs[0], env);
      RunKeepsHealthy(Step(s, msgs[0], env).state, msgs[1..], env);
    }
  }

  /** For the bot's whole life: starting with an empty table and a storage
      message that is absent, was written by `store_parties` from a healthy
      table, or repairs to a healthy table (or fails to repair), every table
      the bot ever holds is well formed with single membership. */
  lemma LifetimeHealthy(storage: Option<RawTable>, msgs: seq<Handlers.Message>, env: Handlers.Env)
    requires || storage.None?
             || (exists t :: Healthy(t) && storage == Some(LiftTable(t)))
             || RepairTable(storage.value).None?
             || Healthy(RepairTable(storage.value).value)
    ensures Healthy(Run(BotState([], false, storage), msgs, env).0.parties)
  {
    if storage.Some? && exists t :: Healthy(t) && storage == Some(LiftTable(t)) {
      var t :| Healthy(t) && storage == Some(LiftTable(t));
      RepairTableLift(t);
    }
    RunKeepsHealthy(BotState([], false, storage), msgs, env);
  }

  /** A load that ran and did not raise. */
  predicate LoadCompleted(r: StepResult) {
    r.loadRan && !r.dispatched.LoadFailed?
  }

  /** Messages handled one after another: the final state and the number of
      completed loads. */
  function Run(s: BotState, msgs: seq<Handlers.Message>, env: Handlers.Env): (BotState, nat)
    decreases |msgs|
  {
    if msgs == [] then (s, 0)
    else
      var r := Step(s, msgs[0], env);
      var (last, loads) := Run(r.state, msgs[1..], env);
      (last, loads + if LoadCompleted(r) then 1 else 0)
  }

  /** Over any sequence of messages the table is loaded at most once, and
      never again once the flag is set. */
  lemma {:induction false} LoadsAtMostOnce(s: BotState, msgs: seq<Handlers.Message>, env: Handlers.Env)
    ensures Run(s, msgs, env).1 <= if s.loaded then 0 else 1
    ensures Run(s, msgs, env).1 == 1 ==> Run(s, msgs, env).0.loaded
    decreases |msgs|
  {
    if msgs != [] {
      var r := Step(s, msgs[0], env);
      StepLoad(s, msgs[0], env);
      LoadsAtMostOnce(r.state, msgs[1..], env);
      if LoadCompleted(r) {
        assert r.state.loaded;
        LoadedStaysLoaded(r.state, msgs[1..], env);
      }
    }
  }

  /** Once the flag is set it stays set. */
  lemma {:induction false} LoadedStaysLoaded(s: BotState, msgs: seq<Handlers.Message>, env: Handlers.Env)
    requires s.loaded
    ensures Run(s, msgs, env).0.loaded
    decreases |msgs|
  {
    if msgs != [] {
      StepLoad(s, msgs[0], env);
      LoadedStaysLoaded(Step(s, msgs[0], env).state, msgs[1..], env);
    }
  }

  // ----- The Hall of Fame reaction trigger -----

  /** A reaction emoji: a custom one has a `name`; a Unicode one is a plain
      string. */
  datatype Emoji = CustomEmoji(name: string) | UnicodeEmoji(text: string)

  /** `getattr(reaction.emoji, "name", reaction.emoji)` */
  function EmojiName(e: Emoji): string {
    match e
    case CustomEmoji(n) => n
    case UnicodeEmoji(s) => s
  }

  /** `on_reaction_add` reposts when the emoji is `nat20` and the count is
      exactly `HOF_COUNT`. */
  predicate ReachesHof(e: Emoji, count: int) {
    EmojiName(e) == HOF_EMOJI && count == HOF_COUNT
  }

  /** The number of reposts for a run of reaction counts on one emoji. */
  function Reposts(e: Emoji, counts: seq<int>): (n: nat)
    ensures n <= |counts|
  {
    if counts == [] then 0
    else (if ReachesHof(e, counts[0]) then 1 else 0) + Reposts(e, counts[1..])
  }

  /** `[1, 2, ..., n]` */
  function UpTo(n: nat): (r: seq<int>)
    ensures |r| == n && forall i :: 0 <= i < n ==> r[i] == i + 1
  {
    if n == 0 then [] else UpTo(n - 1) + [n]
  }

  lemma {:induction false} RepostsAppend(e: Emoji, a: seq<int>, b: seq<int>)
    ensures Reposts(e, a + b) == Reposts(e, a) + Reposts(e, b)
  {
    if a == [] {
      assert a + b == b;
    } else {
      assert (a + b)[0] == a[0];
      assert (a + b)[1..] == a[1..] + b;
      RepostsAppend(e, a[1..], b);
    }
  }

  /** As a message collects reactions one by one, it is reposted once when
      the count reaches `HOF_COUNT` (and never for another emoji): the
      trigger is the exact count, not a threshold. */
  lemma {:induction false} RisingCountRepostsOnce(e: Emoji, n: nat)
    ensures Reposts(e, UpTo(n)) == if EmojiName(e) == HOF_EMOJI && n >= HOF_COUNT then 1 else 0
  {
    if n > 0 {
      RisingCountRepostsOnce(e, n - 1);
      RepostsAppend(e, UpTo(n - 1), [n]);
    }
  }
}
