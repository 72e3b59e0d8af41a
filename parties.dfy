/** The party table of chronos/bot.py: party name -> (member id -> UTC offset
    in hours), both levels insertion-ordered; the `_party_of` lookup; and the
    snapshot kept in the storage message, whose member keys may be legacy
    strings that loading repairs into integers. */
module Parties {
  import opened Wrappers
  import opened Dicts
  import Text

  type Party = Dict<int, int>
  type Table = Dict<string, Party>

  /** Party names are distinct, and so are the members of each party. */
  ghost predicate ValidTable(t: Table) {
    UniqueKeys(t) && forall i :: 0 <= i < |t| ==> UniqueKeys(t[i].1)
  }

  /** No member belongs to two parties. */
  ghost predicate SingleMembership(t: Table) {
    forall i, j, u :: 0 <= i < |t| && 0 <= j < |t| && HasKey(t[i].1, u) && HasKey(t[j].1, u) ==> i == j
  }

  /** The removal loop of `addtimezone`: `del party[u]` in each party that
      holds `u`. */
  function RemoveMember(t: Table, u: int): Table {
    seq(|t|, i requires 0 <= i < |t| => (t[i].0, Remove(t[i].1, u)))
  }

  /** After the removal loop no party holds `u`; the party names, their
      order and every other member's offset are as before. */
  lemma RemoveMemberSpec(t: Table, u: int)
    requires ValidTable(t)
    ensures ValidTable(RemoveMember(t, u))
    ensures |RemoveMember(t, u)| == |t|
    ensures forall i :: 0 <= i < |t| ==> RemoveMember(t, u)[i].0 == t[i].0
    ensures forall i :: 0 <= i < |t| ==> !HasKey(RemoveMember(t, u)[i].1, u)
    ensures forall i, k :: 0 <= i < |t| && k != u ==>
              Lookup(RemoveMember(t, u)[i].1, k) == Lookup(t[i].1, k)
  {
    var r := RemoveMember(t, u);
    forall i | 0 <= i < |t| ensures UniqueKeys(r[i].1) && !HasKey(r[i].1, u)
      && forall k :: k != u ==> Lookup(r[i].1, k) == Lookup(t[i].1, k)
    {
      RemoveLookup(t[i].1, u);
    }
  }

  /** Index of the first party, in insertion order, that holds `u`. */
  function FirstPartyIndex(t: Table, u: int): (r: Option<nat>)
    ensures r.Some? ==> r.value < |t| && HasKey(t[r.value].1, u)
    ensures r.Some? ==> forall j :: 0 <= j < r.value ==> !HasKey(t[j].1, u)
    ensures r.None? <==> forall j :: 0 <= j < |t| ==> !HasKey(t[j].1, u)
  {
    if t == [] then None
    else if HasKey(t[0].1, u) then Some(0)
    else
      var r := FirstPartyIndex(t[1..], u);
      assert forall j :: 1 <= j < |t| ==> t[j] == t[1..][j - 1];
      if r.None? then None else Some(r.value + 1)
  }

  /** `_party_of(u)`: the offset of `u`, the party's name and its member map,
      for the first party in insertion order that holds `u`; `None` where the
      source raises `LookupError`. */
  function PartyOf(t: Table, u: int): (r: Option<(int, string, Party)>)
    ensures r.None? <==> forall j :: 0 <= j < |t| ==> !HasKey(t[j].1, u)
    ensures r.Some? ==> exists i :: 0 <= i < |t| && r.value.1 == t[i].0 && r.value.2 == t[i].1
                                    && Lookup(t[i].1, u) == Some(r.value.0)
                                    && forall j :: 0 <= j < i ==> !HasKey(t[j].1, u)
  {
    match FirstPartyIndex(t, u)
    case None => None
    case Some(i) => Some((Lookup(t[i].1, u).value, t[i].0, t[i].1))
  }

  /** With single membership the party found is the only one holding `u`. */
  lemma PartyOfUnique(t: Table, u: int, i: nat)
    requires SingleMembership(t)
    requires i < |t| && HasKey(t[i].1, u)
    ensures PartyOf(t, u) == Some((Lookup(t[i].1, u).value, t[i].0, t[i].1))
  {
  }

  // ----- The snapshot in the storage message and its repair on load -----

  /** A member key as unpickled: an `int`, or a legacy `str`. */
  datatype Key = IntKey(n: int) | StrKey(s: string)

  type RawParty = Dict<Key, int>
  type RawTable = Dict<string, RawParty>

  /** What `store_parties` writes: the table with its integer keys. */
  function Lift(p: Party): RawParty {
    seq(|p|, i requires 0 <= i < |p| => (IntKey(p[i].0), p[i].1))
  }

  function LiftTable(t: Table): RawTable {
    seq(|t|, i requires 0 <= i < |t| => (t[i].0, Lift(t[i].1)))
  }

  /** `[key for key in party if isinstance(key, str)]` */
  function StrKeys(p: RawParty): (ks: seq<string>)
    ensures forall s :: s in ks <==> exists i :: 0 <= i < |p| && p[i].0 == StrKey(s)
  {
    if p == [] then []
    else
      var ks := (if p[0].0.StrKey? then [p[0].0.s] else []) + StrKeys(p[1..]);
      assert forall i :: 1 <= i < |p| ==> p[i] == p[1..][i - 1];
      ks
  }

  ghost predicate Distinct(ks: seq<string>) {
    forall i, j :: 0 <= i < j < |ks| ==> ks[i] != ks[j]
  }

  lemma {:induction false} StrKeysDistinct(p: RawParty)
    requires UniqueKeys(p)
    ensures Distinct(StrKeys(p))
  {
    if p != [] {
      StrKeysDistinct(p[1..]);
      var rest := StrKeys(p[1..]);
      if p[0].0.StrKey? {
        forall i | 0 <= i < |p[1..]| ensures p[1..][i].0 != p[0].0 {
          assert p[1..][i] == p[i + 1];
        }
        assert p[0].0.s !in rest;
      }
    }
  }

  /** One round of the repair loop for string key `k`: `del party[k]`, then
      `party[int(k)] = value`; `None` where `int(k)` raises `ValueError`. */
  function RepairStep(p: RawParty, k: string): Option<RawParty> {
    match Lookup(p, StrKey(k))
    case None => Some(p)
    case Some(v) =>
      match Text.ParseInt(k)
      case None => None
      case Some(n) => Some(Set(Remove(p, StrKey(k)), IntKey(n), v))
  }

  /** The repair loop over the string keys `ks`, in order. */
  function RepairKeys(p: RawParty, ks: seq<string>): Option<RawParty>
    decreases |ks|
  {
    if ks == [] then Some(p)
    else
      match RepairStep(p, ks[0])
      case None => None
      case Some(p1) => RepairKeys(p1, ks[1..])
  }

  /** The last of `ks`, in order, that `int()` reads as `n`. */
  function LastParsingTo(ks: seq<string>, n: int): (r: Option<string>)
    ensures r.Some? ==> exists i :: 0 <= i < |ks| && ks[i] == r.value && Text.ParseInt(ks[i]) == Some(n)
                                    && forall j :: i < j < |ks| ==> Text.ParseInt(ks[j]) != Some(n)
    ensures r.None? <==> forall j :: 0 <= j < |ks| ==> Text.ParseInt(ks[j]) != Some(n)
  {
    if ks == [] then None
    else
      var rest := LastParsingTo(ks[1..], n);
      assert forall j :: 1 <= j < |ks| ==> ks[j] == ks[1..][j - 1];
      if rest.Some? then rest
      else if Text.ParseInt(ks[0]) == Some(n) then Some(ks[0])
      else None
  }

  /** The keys of a party that holds no string key, as integers. */
  function IntPart(q: RawParty): (r: Party)
    ensures forall n, v :: (n, v) in r <==> (IntKey(n), v) in q
  {
    if q == [] then []
    else
      var r := (if q[0].0.IntKey? then [(q[0].0.n, q[0].1)] else []) + IntPart(q[1..]);
      assert q == [q[0]] + q[1..];
      r
  }

  /** The member map of one party after the repair loop; `None` where the loop
      raises `ValueError`. */
  function RepairedParty(p: RawParty): Option<Party> {
    match RepairKeys(p, StrKeys(p))
    case None => None
    case Some(q) => Some(IntPart(q))
  }

  /** `load_parties`: the unpickled table with every party repaired; `None`
      where some party's repair raises. */
  function RepairTable(raw: RawTable): Option<Table> {
    if raw == [] then Some([])
    else
      match RepairedParty(raw[0].1)
      case None => None
      case Some(q) =>
        match RepairTable(raw[1..])
        case None => None
        case Some(rest) => Some([(raw[0].0, q)] + rest)
  }

  /** The value the repair loop over `ks` leaves under the integer key `n`:
      the value of the last of `ks` that reads as `n`, or, if there is none,
      the value `n` already had. */
  function RepairedValue(p: RawParty, ks: seq<string>, n: int): Option<int> {
    match LastParsingTo(ks, n)
    case Some(k) => Lookup(p, StrKey(k))
    case None => Lookup(p, IntKey(n))
  }

  /** One round of the loop: it fails exactly when `int(k)` does; otherwise
      `k` is gone and `int(k)` holds its value, all else unchanged. */
  lemma RepairStepSpec(p: RawParty, k: string)
    requires UniqueKeys(p) && HasKey(p, StrKey(k))
    ensures RepairStep(p, k).None? <==> Text.ParseInt(k).None?
    ensures RepairStep(p, k).Some? ==> UniqueKeys(RepairStep(p, k).value)
    ensures RepairStep(p, k).Some? ==>
              forall n :: Lookup(RepairStep(p, k).value, IntKey(n)) ==
                (if Text.ParseInt(k) == Some(n) then Lookup(p, StrKey(k)) else Lookup(p, IntKey(n)))
  {
    var v := Lookup(p, StrKey(k)).value;
    var p1 := Remove(p, StrKey(k));
    RemoveLookup(p, StrKey(k));
    var parsed := Text.ParseInt(k);
    if parsed.Some? {
      var n0 := parsed.value;
      var p2 := Set(p1, IntKey(n0), v);
      assert RepairStep(p, k) == Some(p2);
      SetLookup(p1, IntKey(n0), v);
      assert forall n :: Lookup(p2, IntKey(n)) == (if n0 == n then Some(v) else Lookup(p, IntKey(n)));
    } else {
      assert RepairStep(p, k) == None;
    }
  }

  /** One round removes string key `k` and leaves the other string keys. */
  lemma RepairStepStrKeys(p: RawParty, k: string, s: string)
    requires UniqueKeys(p) && HasKey(p, StrKey(k))
    requires RepairStep(p, k).Some?
    ensures Lookup(RepairStep(p, k).value, StrKey(s)) == (if s == k then None else Lookup(p, StrKey(s)))
  {
    var v := Lookup(p, StrKey(k)).value;
    var p1 := Remove(p, StrKey(k));
    RemoveLookup(p, StrKey(k));
    var n0 := Text.ParseInt(k).value;
    SetLookup(p1, IntKey(n0), v);
  }

  /** What the repair loop over `ks` needs of the party: distinct keys, and
      each of the distinct string keys `ks` present. */
  ghost predicate RepairReady(p: RawParty, ks: seq<string>) {
    UniqueKeys(p) && Distinct(ks) && forall k :: k in ks ==> HasKey(p, StrKey(k))
  }

  /** The string keys of a party are exactly those present in it. */
  lemma StrKeysPresent(p: RawParty)
    ensures forall s :: s in StrKeys(p) <==> HasKey(p, StrKey(s))
  {
    forall s ensures s in StrKeys(p) <==> HasKey(p, StrKey(s)) {
      if HasKey(p, StrKey(s)) {
        var i := IndexOf(p, StrKey(s)).value;
        assert p[i].0 == StrKey(s);
      }
    }
  }

  /** One round fails exactly when `int(k)` raises. */
  lemma RepairStepFails(p: RawParty, k: string)
    requires HasKey(p, StrKey(k))
    ensures RepairStep(p, k).None? <==> Text.ParseInt(k).None?
  {
  }

  /** A successful first round leaves the rest of the loop ready to run. */
  lemma RepairStepReady(p: RawParty, ks: seq<string>)
    requires RepairReady(p, ks) && ks != [] && RepairStep(p, ks[0]).Some?
    ensures RepairReady(RepairStep(p, ks[0]).value, ks[1..])
  {
    var k := ks[0];
    RepairStepSpec(p, k);
    var p2 := RepairStep(p, k).value;
    var ks' := ks[1..];
    forall i, j | 0 <= i < j < |ks'| ensures ks'[i] != ks'[j] {
      assert ks'[i] == ks[i + 1] && ks'[j] == ks[j + 1];
    }
    forall k' | k' in ks' ensures HasKey(p2, StrKey(k')) {
      var j :| 0 <= j < |ks'| && ks'[j] == k';
      assert ks[j + 1] == k';
      assert k' != k;
      RepairStepStrKeys(p, k, k');
    }
  }

  /** A successful first round moves the first key's value to its integer
      and leaves every other string key. */
  lemma RepairStepMoves(p: RawParty, ks: seq<string>)
    requires RepairReady(p, ks) && ks != [] && RepairStep(p, ks[0]).Some?
    ensures forall s :: Lookup(RepairStep(p, ks[0]).value, StrKey(s)) ==
              (if s == ks[0] then None else Lookup(p, StrKey(s)))
    ensures forall n :: Lookup(RepairStep(p, ks[0]).value, IntKey(n)) ==
              (if Text.ParseInt(ks[0]) == Some(n) then Lookup(p, StrKey(ks[0])) else Lookup(p, IntKey(n)))
  {
    var k := ks[0];
    RepairStepSpec(p, k);
    forall s ensures Lookup(RepairStep(p, k).value, StrKey(s)) == (if s == k then None else Lookup(p, StrKey(s))) {
      RepairStepStrKeys(p, k, s);
    }
  }

  /** The repaired value under `n` after the first round and the rest of the
      loop is the repaired value of the whole loop. */
  lemma RepairedValueCons(p: RawParty, p2: RawParty, ks: seq<string>, n: int)
    requires ks != [] && Distinct(ks)
    requires forall s :: Lookup(p2, StrKey(s)) == (if s == ks[0] then None else Lookup(p, StrKey(s)))
    requires Lookup(p2, IntKey(n)) ==
               (if Text.ParseInt(ks[0]) == Some(n) then Lookup(p, StrKey(ks[0])) else Lookup(p, IntKey(n)))
    ensures RepairedValue(p2, ks[1..], n) == RepairedValue(p, ks, n)
  {
    var last := LastParsingTo(ks[1..], n);
    if last.Some? {
      var j :| 0 <= j < |ks[1..]| && ks[1..][j] == last.value;
      assert ks[j + 1] == last.value;
    }
  }

  /** The repair loop fails exactly when some string key is not an integer. */
  lemma {:induction false} RepairKeysFails(p: RawParty, ks: seq<string>)
    requires RepairReady(p, ks)
    decreases |ks|
    ensures RepairKeys(p, ks).None? <==> exists k :: k in ks && Text.ParseInt(k).None?
  {
    if ks != [] {
      var k := ks[0];
      RepairStepFails(p, k);
      if RepairStep(p, k).None? {
        assert k in ks && Text.ParseInt(k).None?;
      } else {
        var p2 := RepairStep(p, k).value;
        var ks' := ks[1..];
        RepairStepReady(p, ks);
        RepairKeysFails(p2, ks');
        assert RepairKeys(p, ks) == RepairKeys(p2, ks');
        if RepairKeys(p2, ks').None? {
          var k' :| k' in ks' && Text.ParseInt(k').None?;
          var j :| 0 <= j < |ks'| && ks'[j] == k';
          assert ks[j + 1] == k';
        } else {
          forall k' | k' in ks ensures Text.ParseInt(k').Some? {
            var j :| 0 <= j < |ks| && ks[j] == k';
            if j > 0 {
              assert ks'[j - 1] == k';
            }
          }
        }
      }
    }
  }

  /** When the repair loop succeeds, its result has distinct keys, string
      keys not yet visited stay as they were and visited ones are gone. */
  lemma {:induction false} RepairKeysStrs(p: RawParty, ks: seq<string>)
    requires RepairReady(p, ks) && RepairKeys(p, ks).Some?
    decreases |ks|
    ensures UniqueKeys(RepairKeys(p, ks).value)
    ensures forall s :: Lookup(RepairKeys(p, ks).value, StrKey(s)) == (if s in ks then None else Lookup(p, StrKey(s)))
  {
    if ks != [] {
      var k := ks[0];
      var ks' := ks[1..];
      RepairStepReady(p, ks);
      RepairStepMoves(p, ks);
      assert ks == [k] + ks';
      RepairKeysStrs(RepairStep(p, k).value, ks');
    }
  }

  /** When the repair loop succeeds, each integer key holds its
      `RepairedValue`. */
  lemma {:induction false} RepairKeysInts(p: RawParty, ks: seq<string>)
    requires RepairReady(p, ks) && RepairKeys(p, ks).Some?
    decreases |ks|
    ensures forall n :: Lookup(RepairKeys(p, ks).value, IntKey(n)) == RepairedValue(p, ks, n)
  {
    if ks != [] {
      var p2 := RepairStep(p, ks[0]).value;
      var ks' := ks[1..];
      RepairStepReady(p, ks);
      RepairStepMoves(p, ks);
      RepairKeysInts(p2, ks');
      var q := RepairKeys(p2, ks').value;
      forall n ensures Lookup(q, IntKey(n)) == RepairedValue(p, ks, n) {
        RepairedValueCons(p, p2, ks, n);
      }
    }
  }

  lemma {:induction false} IntPartUnique(q: RawParty)
    requires UniqueKeys(q)
    ensures UniqueKeys(IntPart(q))
  {
    if q != [] {
      IntPartUnique(q[1..]);
      var rest := IntPart(q[1..]);
      if q[0].0.IntKey? {
        var r := IntPart(q);
        assert r == [(q[0].0.n, q[0].1)] + rest;
        forall j | 0 <= j < |rest| ensures rest[j].0 != q[0].0.n {
          assert rest[j] in rest;
          assert (IntKey(rest[j].0), rest[j].1) in q[1..];
          var i :| 0 <= i < |q[1..]| && q[1..][i] == (IntKey(rest[j].0), rest[j].1);
          assert q[i + 1].0 != q[0].0;
        }
      }
    }
  }

  /** Reading a repaired party by integer equals reading the raw one by
      its integer key. */
  lemma IntPartLookup(q: RawParty, n: int)
    requires UniqueKeys(q)
    ensures Lookup(IntPart(q), n) == Lookup(q, IntKey(n))
  {
    IntPartUnique(q);
    var r := IntPart(q);
    if Lookup(q, IntKey(n)).Some? {
      var v := Lookup(q, IntKey(n)).value;
      assert (n, v) in r;
      var j :| 0 <= j < |r| && r[j] == (n, v);
    }
  }

  /** The legacy repair of one party. It fails exactly when some string key
      is not an integer. Otherwise the result has distinct keys, and each
      integer `n` maps to the value of the last string key reading as `n`,
      or, if there is none, to the value the integer key `n` already had. */
  lemma RepairedPartySpec(p: RawParty)
    requires UniqueKeys(p)
    ensures RepairedParty(p).None? <==> exists s :: HasKey(p, StrKey(s)) && Text.ParseInt(s).None?
    ensures RepairedParty(p).Some? ==> UniqueKeys(RepairedParty(p).value)
    ensures RepairedParty(p).Some? ==>
              forall n :: Lookup(RepairedParty(p).value, n) == RepairedValue(p, StrKeys(p), n)
  {
    var ks := StrKeys(p);
    StrKeysDistinct(p);
    StrKeysPresent(p);
    RepairKeysFails(p, ks);
    if RepairKeys(p, ks).Some? {
      RepairKeysStrs(p, ks);
      RepairKeysInts(p, ks);
      var q := RepairKeys(p, ks).value;
      IntPartUnique(q);
      forall n ensures Lookup(IntPart(q), n) == Lookup(q, IntKey(n)) {
        IntPartLookup(q, n);
      }
    }
  }

  /** After a successful repair no string key is left: every key of the
      snapshot survives as an integer key. */
  lemma RepairLeavesNoStrKey(p: RawParty)
    requires UniqueKeys(p)
    requires RepairedParty(p).Some?
    ensures forall s :: !HasKey(RepairKeys(p, StrKeys(p)).value, StrKey(s))
    ensures Lift(RepairedParty(p).value) == RepairKeys(p, StrKeys(p)).value
  {
    var ks := StrKeys(p);
    StrKeysDistinct(p);
    StrKeysPresent(p);
    RepairKeysStrs(p, ks);
    var q := RepairKeys(p, ks).value;
    forall s ensures !HasKey(q, StrKey(s)) {
      assert Lookup(q, StrKey(s)) == (if s in ks then None else Lookup(p, StrKey(s)));
    }
    OnlyIntKeys(q);
    LiftIntPart(q);
  }

  /** A party in which no string key is present has only integer keys. */
  lemma OnlyIntKeys(q: RawParty)
    requires forall s :: !HasKey(q, StrKey(s))
    ensures forall i :: 0 <= i < |q| ==> q[i].0.IntKey?
  {
    forall i | 0 <= i < |q| ensures q[i].0.IntKey? {
      assert HasKey(q, q[i].0);
    }
  }

  lemma {:induction false} LiftIntPart(q: RawParty)
    requires forall i :: 0 <= i < |q| ==> q[i].0.IntKey?
    ensures Lift(IntPart(q)) == q
  {
    if q != [] {
      LiftIntPart(q[1..]);
      assert IntPart(q) == [(q[0].0.n, q[0].1)] + IntPart(q[1..]);
    }
  }

  lemma {:induction false} IntPartLift(p: Party)
    ensures IntPart(Lift(p)) == p
  {
    if p != [] {
      IntPartLift(p[1..]);
      assert Lift(p)[1..] == Lift(p[1..]);
    }
  }

  /** Repairing what `store_parties` wrote gives back the table. */
  lemma {:induction false} RepairTableLift(t: Table)
    ensures RepairTable(LiftTable(t)) == Some(t)
  {
    if t != [] {
      var p := Lift(t[0].1);
      if StrKeys(p) != [] {
        assert StrKeys(p)[0] in StrKeys(p);
      }
      assert RepairKeys(p, StrKeys(p)) == Some(p);
      IntPartLift(t[0].1);
      assert RepairedParty(p) == Some(t[0].1);
      assert LiftTable(t)[0] == (t[0].0, p);
      assert t == [(t[0].0, t[0].1)] + t[1..];
      assert LiftTable(t)[1..] == LiftTable(t[1..]);
      RepairTableLift(t[1..]);
    }
  }

  /** The repaired table keeps the parties' names and order and repairs each
      party on its own; it fails exactly when some party's repair fails. */
  lemma {:induction false} RepairTableSpec(raw: RawTable)
    ensures RepairTable(raw).None? <==> exists i :: 0 <= i < |raw| && RepairedParty(raw[i].1).None?
    ensures RepairTable(raw).Some? ==> |RepairTable(raw).value| == |raw|
    ensures RepairTable(raw).Some? ==> forall i :: 0 <= i < |raw| ==>
              RepairTable(raw).value[i].0 == raw[i].0 && Some(RepairTable(raw).value[i].1) == RepairedParty(raw[i].1)
  {
    if raw != [] {
      RepairTableSpec(raw[1..]);
      assert forall i :: 1 <= i < |raw| ==> raw[i] == raw[1..][i - 1];
    }
  }

  /** One party whose repair fails makes the whole repair fail. */
  lemma RepairTableFails(raw: RawTable, i: nat)
    requires i < |raw| && RepairedParty(raw[i].1).None?
    ensures RepairTable(raw).None?
  {
    RepairTableSpec(raw);
  }

  /** A table holding each party's name and repaired members, in order, is
      the repaired table. */
  lemma RepairTableOf(raw: RawTable, t: Table)
    requires |t| == |raw|
    requires forall j :: 0 <= j < |raw| ==> t[j].0 == raw[j].0 && Some(t[j].1) == RepairedParty(raw[j].1)
    ensures RepairTable(raw) == Some(t)
  {
    RepairTableSpec(raw);
    assert RepairTable(raw).value == t;
  }

  /** A snapshot with distinct names and distinct keys per party repairs to a
      well-formed table. */
  lemma RepairTableValid(raw: RawTable)
    requires UniqueKeys(raw) && forall i :: 0 <= i < |raw| ==> UniqueKeys(raw[i].1)
    requires RepairTable(raw).Some?
    ensures ValidTable(RepairTable(raw).value)
  {
    RepairTableSpec(raw);
    var t := RepairTable(raw).value;
    forall i | 0 <= i < |t| ensures UniqueKeys(t[i].1) {
      RepairedPartySpec(raw[i].1);
    }
  }
}
