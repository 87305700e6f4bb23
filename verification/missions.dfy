/** js/missions.js: the mission leaderboard. Missions are grouped by their
    normalised name, every "sky care…" variant falling into one group, and
    each group's row adds up the pieces of its visible missions. */
module Missions {
  import opened Base
  import opened Text
  import opened Js
  import opened Sums
  import opened Groups
  import opened Ranking

  /** `normalizeMissionName`: trim, collapse white-space runs, lower-case. */
  function NormalizeMissionName(value: Value): string {
    ToLower(CollapseSpaces(Trim(ToText(Or(value, Str(""))))))
  }

  /** The normalised form: no outer white space, single spaces, no capitals. */
  predicate Normalized(s: string) {
    Trimmed(s) && SingleSpaced(s) && ToLower(s) == s
  }

  lemma NormalizeShape(s: string)
    ensures Normalized(ToLower(CollapseSpaces(Trim(s))))
  {
    var t := Trim(s);
    var c := CollapseSpaces(t);
    CollapseShape(t);
    assert Trimmed(c);
    LowerKeepsTrimmed(c);
    LowerKeepsSingleSpaced(c);
    LowerIdempotent(c);
  }

  /** Normalising a normalised name changes nothing. */
  lemma NormalizeNormalized(s: string)
    requires Normalized(s)
    ensures ToLower(CollapseSpaces(Trim(s))) == s
  {
    TrimOfTrimmed(s);
    CollapseOfSingleSpaced(s);
  }

  lemma TextOfString(s: string)
    ensures ToText(Or(Str(s), Str(""))) == s
  {
  }

  /** `normalizeMissionName` is idempotent. */
  lemma NormalizeMissionNameIdempotent(value: Value)
    ensures NormalizeMissionName(Str(NormalizeMissionName(value))) == NormalizeMissionName(value)
    ensures Normalized(NormalizeMissionName(value))
  {
    var n := NormalizeMissionName(value);
    NormalizeShape(ToText(Or(value, Str(""))));
    TextOfString(n);
    NormalizeNormalized(n);
  }

  const SkyCareKey := "sky care"
  const SkyCareName := "Sky Care"
  const UnnamedMission := "Unnamed mission"
  const UndefinedGroup := "undefined"

  /** `missionGroupKey`. */
  function MissionGroupKey(rawName: Value): (r: string)
    ensures r != ""
  {
    var normalized := NormalizeMissionName(rawName);
    if StartsWith(normalized, SkyCareKey) then SkyCareKey
    else if normalized == "" then UndefinedGroup
    else normalized
  }

  /** The group key of a name: names with the same normalised form share a
      key; the key is itself normalised and is its own group key; and the
      key is "sky care" exactly for the names whose normalised form starts
      with "sky care". */
  lemma MissionGroupKeyFacts(a: Value, b: Value)
    ensures NormalizeMissionName(a) == NormalizeMissionName(b) ==> MissionGroupKey(a) == MissionGroupKey(b)
    ensures Normalized(MissionGroupKey(a)) && NormalizeMissionName(Str(MissionGroupKey(a))) == MissionGroupKey(a)
    ensures MissionGroupKey(Str(MissionGroupKey(a))) == MissionGroupKey(a)
    ensures MissionGroupKey(a) == SkyCareKey <==> StartsWith(NormalizeMissionName(a), SkyCareKey)
  {
    KeyNormalized(a);
    KeyIsOwnKey(a);
    KeySkyCare(a);
  }

  lemma KeyNormalized(a: Value)
    ensures Normalized(MissionGroupKey(a)) && NormalizeMissionName(Str(MissionGroupKey(a))) == MissionGroupKey(a)
  {
    var key := MissionGroupKey(a);
    NormalizeMissionNameIdempotent(a);
    FixedKeysNormalized();
    NormalizeNormalized(key);
    TextOfString(key);
  }

  lemma KeyIsOwnKey(a: Value)
    ensures MissionGroupKey(Str(MissionGroupKey(a))) == MissionGroupKey(a)
  {
    var key := MissionGroupKey(a);
    KeyNormalized(a);
    if key == UndefinedGroup {
      assert key[0] != SkyCareKey[0];
    }
  }

  lemma KeySkyCare(a: Value)
    ensures MissionGroupKey(a) == SkyCareKey <==> StartsWith(NormalizeMissionName(a), SkyCareKey)
  {
    assert UndefinedGroup[0] != SkyCareKey[0];
  }

  /** "sky care" and "undefined" are normalised names. */
  lemma FixedKeysNormalized()
    ensures Normalized(SkyCareKey) && Normalized(UndefinedGroup)
  {
    assert PlainWords(SkyCareKey) && LowerOrSpace(SkyCareKey);
    assert PlainWords(UndefinedGroup) && LowerOrSpace(UndefinedGroup);
    PlainWordsArePlain(SkyCareKey);
    PlainWordsArePlain(UndefinedGroup);
    LowerOfLowerOrSpace(SkyCareKey);
    LowerOfLowerOrSpace(UndefinedGroup);
  }

  /** The yearly Sky Care missions fall into one group. */
  lemma SkyCareVariants()
    ensures MissionGroupKey(Str("Sky Care 2022")) == SkyCareKey
    ensures MissionGroupKey(Str("Sky Care Mission 2024")) == SkyCareKey
  {
    SkyCare2022();
    SkyCareMission2024();
  }

  lemma SkyCare2022()
    ensures MissionGroupKey(Str("Sky Care 2022")) == SkyCareKey
  {
    var a := "Sky Care 2022";
    assert PlainWords(a);
    PlainWordsArePlain(a);
    SkyCareLower();
    SkyCarePrefix(a, " 2022");
  }

  lemma SkyCareMission2024()
    ensures MissionGroupKey(Str("Sky Care Mission 2024")) == SkyCareKey
  {
    var b := "Sky Care Mission 2024";
    assert PlainWords(b);
    PlainWordsArePlain(b);
    SkyCareLower();
    SkyCarePrefix(b, " Mission 2024");
  }

  lemma SkyCareLower()
    ensures ToLower("Sky Care") == SkyCareKey
  {
  }

  /** A trimmed, single-spaced name that starts with "Sky Care" joins the
      "sky care" group. */
  lemma SkyCarePrefix(name: string, tail: string)
    requires name == "Sky Care" + tail
    requires Trimmed(name) && SingleSpaced(name)
    requires ToLower("Sky Care") == SkyCareKey
    ensures MissionGroupKey(Str(name)) == SkyCareKey
  {
    TextOfString(name);
    TrimOfTrimmed(name);
    CollapseOfSingleSpaced(name);
    assert NormalizeMissionName(Str(name)) == ToLower(name);
    LowerPrefix(name, 8);
    assert name[..8] == "Sky Care";
  }

  /** The raw pieces value: the first of `totalPieces`, `pieces`,
      `piecesCollected`, `collectedPieces` that is neither null nor
      undefined, and 0 when all four are. */
  function RawPieces(mission: Value): Value {
    Coalesce(Get(mission, "totalPieces"), Coalesce(Get(mission, "pieces"),
      Coalesce(Get(mission, "piecesCollected"), Coalesce(Get(mission, "collectedPieces"), Num(Zero)))))
  }

  /** The four fields `getMissionPieces` tries, in order. */
  const PieceFields: seq<string> := ["totalPieces", "pieces", "piecesCollected", "collectedPieces"]

  predicate Nullish(v: Value) {
    v.Undefined? || v.Null?
  }

  /** Field `i` is the first of the four that is set. */
  predicate FirstSetAt(mission: Value, i: int) {
    && 0 <= i < |PieceFields|
    && !Nullish(Get(mission, PieceFields[i]))
    && forall j :: 0 <= j < i ==> Nullish(Get(mission, PieceFields[j]))
  }

  /** `Number.isFinite(n) ? n : 0`. */
  function FiniteOrZero(n: Number): (r: Finite)
    ensures n.Fin? ==> r == n
    ensures !n.Fin? ==> r == Zero
  {
    if n.Fin? then n else Zero
  }

  lemma RawPiecesFacts(mission: Value)
    ensures forall i :: FirstSetAt(mission, i) ==> RawPieces(mission) == Get(mission, PieceFields[i])
    ensures (forall i :: 0 <= i < |PieceFields| ==> Nullish(Get(mission, PieceFields[i]))) ==>
              RawPieces(mission) == Num(Zero)
  {
    forall i | FirstSetAt(mission, i) ensures RawPieces(mission) == Get(mission, PieceFields[i]) {
      if i > 0 {
        assert Nullish(Get(mission, PieceFields[0]));
      }
      if i > 1 {
        assert Nullish(Get(mission, PieceFields[1]));
      }
      if i > 2 {
        assert Nullish(Get(mission, PieceFields[2]));
      }
    }
    if forall i :: 0 <= i < |PieceFields| ==> Nullish(Get(mission, PieceFields[i])) {
      assert Nullish(Get(mission, PieceFields[0])) && Nullish(Get(mission, PieceFields[1]));
      assert Nullish(Get(mission, PieceFields[2])) && Nullish(Get(mission, PieceFields[3]));
    }
  }

  /** `getMissionPieces`: the first of the four fields that is set decides,
      whatever the later ones hold, as a number with 0 for a non-finite
      value; a mission with none of them has 0 pieces. */
  function MissionPieces(mission: Value): (r: Finite)
    ensures forall i :: FirstSetAt(mission, i) ==> r == FiniteOrZero(ToNumber(Get(mission, PieceFields[i])))
    ensures (forall i :: 0 <= i < |PieceFields| ==> Nullish(Get(mission, PieceFields[i]))) ==> r == Zero
  {
    RawPiecesFacts(mission);
    FiniteOrZero(ToNumber(RawPieces(mission)))
  }

  /** A set `totalPieces` decides the pieces, whatever the fallbacks say. */
  lemma TotalPiecesFirst(mission: Value)
    requires !Get(mission, "totalPieces").Undefined? && !Get(mission, "totalPieces").Null?
    ensures ToNumber(Get(mission, "totalPieces")).Fin? ==> MissionPieces(mission) == ToNumber(Get(mission, "totalPieces"))
    ensures !ToNumber(Get(mission, "totalPieces")).Fin? ==> MissionPieces(mission) == Zero
  {
  }

  /** A mission with none of the four fields has 0 pieces. */
  lemma NoPiecesField(mission: Value)
    requires forall f :: f in ["totalPieces", "pieces", "piecesCollected", "collectedPieces"] ==> Get(mission, f).Undefined?
    ensures MissionPieces(mission) == Zero
  {
    assert Get(mission, "totalPieces").Undefined? && Get(mission, "pieces").Undefined?;
    assert Get(mission, "piecesCollected").Undefined? && Get(mission, "collectedPieces").Undefined?;
  }

  /** `isMissionHidden`: `hidden` is exactly `true`. */
  predicate IsMissionHidden(mission: Value) {
    Get(mission, "hidden") == Bool(true)
  }

  /** The loop skips falsy and hidden missions. */
  predicate Visible(mission: Value) {
    Truthy(mission) && !IsMissionHidden(mission)
  }

  /** The trimmed display name, "" when absent. */
  function RawName(mission: Value): string {
    Trim(ToText(Or(Get(mission, "name"), Str(""))))
  }

  function MissionKey(mission: Value): string {
    MissionGroupKey(Str(RawName(mission)))
  }

  /** The name a new row starts with. */
  function DefaultName(key: string, rawName: string): string {
    if key == SkyCareKey then SkyCareName else if rawName != "" then rawName else UnnamedMission
  }

  /** One mission added to its row: the pieces are added, and a placeholder
      name gives way to a real one outside the Sky Care group. */
  function Bump(key: string, rawName: string, pieces: Finite): Option<NamedCount> -> NamedCount {
    (current: Option<NamedCount>) =>
      var row := if current.Some? then current.value else NamedCount(DefaultName(key, rawName), Zero);
      var counted := row.(count := Add(row.count, pieces));
      if key != SkyCareKey && (counted.name == UnnamedMission || counted.name == UndefinedGroup) && rawName != ""
      then counted.(name := rawName)
      else counted
  }

  /** The grouping loop of `topMissionTotals` for given per-mission parts:
      each `visible` mission adds its `pieces` to the row under its `key`,
      named after its trimmed `raw` name. */
  function GroupLoop(missions: seq<Value>, visible: Value -> bool, key: Value -> string,
                     raw: Value -> string, pieces: Value -> Finite): Table<string, NamedCount>
    decreases |missions|
  {
    if |missions| == 0 then []
    else
      var n := |missions| - 1;
      var rows := GroupLoop(missions[..n], visible, key, raw, pieces);
      var m := missions[n];
      if !visible(m) then rows else Upsert(rows, key(m), Bump(key(m), raw(m), pieces(m)))
  }

  /** The grouping loop of `topMissionTotals`, over the missions in key order. */
  function GroupMissions(missions: seq<Value>): Table<string, NamedCount> {
    GroupLoop(missions, Visible, MissionKey, RawName, MissionPieces)
  }

  function InGroupOf(visible: Value -> bool, key: Value -> string, k: string): Value -> bool {
    (m: Value) => visible(m) && key(m) == k
  }

  /** The mission is visible and in group `k`. */
  function InGroup(k: string): Value -> bool {
    InGroupOf(Visible, MissionKey, k)
  }

  predicate HasPieces(row: NamedCount) {
    Lt(Zero, row.count)
  }

  const DefaultMissionLimit: Number := Fin(20, 0)

  /** `Math.max(0, limit | 0)`. */
  function RowLimit(limit: Number): nat {
    var k := ToInt32(limit);
    if k < 0 then 0 else k
  }

  /** `topMissionTotals`. */
  function TopMissionTotals(missions: seq<(string, Value)>, limit: Number): seq<NamedCount> {
    var rows := Filter(ValuesOf(GroupMissions(ValuesOf(missions))), HasPieces);
    var ranked := RankRows(rows);
    ranked[..if RowLimit(limit) < |ranked| then RowLimit(limit) else |ranked|]
  }


  /** The current count of a row, 0 for a new one. */
  function CountSoFar(current: Option<NamedCount>): Number {
    if current.Some? then current.value.count else Zero
  }

  /** A row's name is never empty, and the Sky Care row keeps "Sky Care". */
  predicate NameFor(k: string, row: NamedCount) {
    row.name != "" && (k == SkyCareKey ==> row.name == SkyCareName)
  }

  /** What one mission does to its row: its pieces are added, and the name
      stays non-empty ("Sky Care" for the Sky Care group). */
  lemma BumpFacts(key: string, rawName: string, pieces: Finite, current: Option<NamedCount>)
    ensures Bump(key, rawName, pieces)(current).count == Add(CountSoFar(current), pieces)
    ensures current.None? || NameFor(key, current.value) ==> NameFor(key, Bump(key, rawName, pieces)(current))
  {
  }

  /** The row the loop builds for group `k`, followed on its own. */
  function RowOf(missions: seq<Value>, visible: Value -> bool, key: Value -> string, raw: Value -> string,
                 pieces: Value -> Finite, k: string): Option<NamedCount>
    decreases |missions|
  {
    if |missions| == 0 then None
    else
      var n := |missions| - 1;
      var m := missions[n];
      var before := RowOf(missions[..n], visible, key, raw, pieces, k);
      if InGroupOf(visible, key, k)(m) then Some(Bump(k, raw(m), pieces(m))(before)) else before
  }

  /** The table's row for `k` is the row followed on its own. */
  lemma {:induction false} LookupIsRowOf(missions: seq<Value>, visible: Value -> bool, key: Value -> string,
                                         raw: Value -> string, pieces: Value -> Finite, k: string)
    ensures Lookup(GroupLoop(missions, visible, key, raw, pieces), k) == RowOf(missions, visible, key, raw, pieces, k)
    decreases |missions|
  {
    if |missions| > 0 {
      var n := |missions| - 1;
      var m := missions[n];
      LookupIsRowOf(missions[..n], visible, key, raw, pieces, k);
      if visible(m) && key(m) != k {
        UpsertOthers(GroupLoop(missions[..n], visible, key, raw, pieces), key(m), Bump(key(m), raw(m), pieces(m)), k);
      }
    }
  }

  lemma {:induction false} RowExists(missions: seq<Value>, visible: Value -> bool, key: Value -> string,
                                     raw: Value -> string, pieces: Value -> Finite, k: string)
    ensures RowOf(missions, visible, key, raw, pieces, k).Some? <==>
              exists i :: 0 <= i < |missions| && InGroupOf(visible, key, k)(missions[i])
    decreases |missions|
  {
    if |missions| > 0 {
      var n := |missions| - 1;
      var p := InGroupOf(visible, key, k);
      RowExists(missions[..n], visible, key, raw, pieces, k);
      if !p(missions[n]) {
        forall i | 0 <= i < |missions| && p(missions[i]) ensures i < n && p(missions[..n][i]) {
        }
      }
      forall i | 0 <= i < n && p(missions[..n][i]) ensures p(missions[i]) {
      }
    }
  }

  lemma {:induction false} RowCount(missions: seq<Value>, visible: Value -> bool, key: Value -> string,
                                    raw: Value -> string, pieces: Value -> Finite, k: string)
    ensures CountSoFar(RowOf(missions, visible, key, raw, pieces, k)) ==
              Sum(Filter(missions, InGroupOf(visible, key, k)), PiecesOf(pieces))
    decreases |missions|
  {
    if |missions| > 0 {
      var n := |missions| - 1;
      var prefix, m := missions[..n], missions[n];
      var p := InGroupOf(visible, key, k);
      var before := RowOf(prefix, visible, key, raw, pieces, k);
      RowCount(prefix, visible, key, raw, pieces, k);
      assert missions == prefix + [m];
      FilterAppend(prefix, [m], p);
      if p(m) {
        assert Filter([m], p) == [m];
        SumSnoc(Filter(prefix, p), m, PiecesOf(pieces));
        BumpFacts(k, raw(m), pieces(m), before);
      } else {
        assert Filter([m], p) == [];
        assert Filter(prefix, p) + [] == Filter(prefix, p);
      }
    }
  }

  /** `pieces` as a number-valued measure. */
  function PiecesOf(pieces: Value -> Finite): Value -> Number {
    (m: Value) => pieces(m)
  }

  lemma {:induction false} RowName(missions: seq<Value>, visible: Value -> bool, key: Value -> string,
                                   raw: Value -> string, pieces: Value -> Finite, k: string)
    ensures RowOf(missions, visible, key, raw, pieces, k).Some? ==> NameFor(k, RowOf(missions, visible, key, raw, pieces, k).value)
    decreases |missions|
  {
    if |missions| > 0 {
      var n := |missions| - 1;
      var m := missions[n];
      RowName(missions[..n], visible, key, raw, pieces, k);
      BumpFacts(k, raw(m), pieces(m), RowOf(missions[..n], visible, key, raw, pieces, k));
    }
  }

  /** A real display name: neither blank nor one of the two placeholders. */
  predicate RealName(s: string) {
    s != "" && s != UnnamedMission && s != UndefinedGroup
  }

  /** Mission `i` is the first of the group (`p`) whose raw name is real. */
  predicate FirstRealAt(ms: seq<Value>, p: Value -> bool, raw: Value -> string, i: nat) {
    i < |ms| && p(ms[i]) && RealName(raw(ms[i]))
    && forall j :: 0 <= j < i && p(ms[j]) ==> !RealName(raw(ms[j]))
  }

  /** No mission of the group has a real raw name. */
  predicate NoRealName(ms: seq<Value>, p: Value -> bool, raw: Value -> string) {
    forall j :: 0 <= j < |ms| && p(ms[j]) ==> !RealName(raw(ms[j]))
  }

  /** Mission `i` is the last of the group with a non-blank raw name. */
  predicate LastNamedAt(ms: seq<Value>, p: Value -> bool, raw: Value -> string, i: nat) {
    i < |ms| && p(ms[i]) && raw(ms[i]) != ""
    && forall j :: i < j < |ms| && p(ms[j]) ==> raw(ms[j]) == ""
  }

  /** Every mission of the group has a blank raw name. */
  predicate AllBlank(ms: seq<Value>, p: Value -> bool, raw: Value -> string) {
    forall j :: 0 <= j < |ms| && p(ms[j]) ==> raw(ms[j]) == ""
  }

  /** The display name a group ends with: the first real raw name of the
      group; when there is none, a placeholder — the last non-blank raw name
      ("Unnamed mission" or "undefined"), or "Unnamed mission" when every raw
      name is blank. */
  ghost predicate DisplayNameOf(ms: seq<Value>, p: Value -> bool, raw: Value -> string, name: string) {
    && (RealName(name) <==> !NoRealName(ms, p, raw))
    && (forall i: nat :: FirstRealAt(ms, p, raw, i) ==> name == raw(ms[i]))
    && (NoRealName(ms, p, raw) ==>
          && (name == UnnamedMission || name == UndefinedGroup)
          && (forall i: nat :: LastNamedAt(ms, p, raw, i) ==> name == raw(ms[i]))
          && (AllBlank(ms, p, raw) ==> name == UnnamedMission))
  }

  /** A mission outside the group leaves the display name as it was. */
  lemma DisplaySkip(prefix: seq<Value>, m: Value, p: Value -> bool, raw: Value -> string, name: string)
    requires !p(m) && DisplayNameOf(prefix, p, raw, name)
    ensures DisplayNameOf(prefix + [m], p, raw, name)
  {
    var ms := prefix + [m];
    assert forall j :: 0 <= j < |prefix| ==> ms[j] == prefix[j];
    assert NoRealName(ms, p, raw) <==> NoRealName(prefix, p, raw);
    assert AllBlank(ms, p, raw) <==> AllBlank(prefix, p, raw);
    forall i: nat | FirstRealAt(ms, p, raw, i) ensures name == raw(ms[i]) {
      assert FirstRealAt(prefix, p, raw, i);
    }
    forall i: nat | LastNamedAt(ms, p, raw, i) ensures FirstRealAt(ms, p, raw, i) || LastNamedAt(prefix, p, raw, i) {
      assert i < |prefix|;
    }
  }

  /** The group's first mission names the row after its raw name, or
      "Unnamed mission" when that is blank. */
  lemma DisplayFirst(prefix: seq<Value>, m: Value, p: Value -> bool, raw: Value -> string)
    requires p(m) && forall j :: 0 <= j < |prefix| ==> !p(prefix[j])
    ensures DisplayNameOf(prefix + [m], p, raw, if raw(m) != "" then raw(m) else UnnamedMission)
  {
    var ms := prefix + [m];
    var n := |prefix|;
    assert forall j :: 0 <= j < n ==> ms[j] == prefix[j];
    assert ms[n] == m;
    assert NoRealName(ms, p, raw) <==> !RealName(raw(m));
    assert AllBlank(ms, p, raw) <==> raw(m) == "";
    forall i: nat | FirstRealAt(ms, p, raw, i) ensures i == n {
    }
    forall i: nat | LastNamedAt(ms, p, raw, i) ensures i == n {
    }
  }

  /** A later mission of the group replaces a placeholder name by its
      non-blank raw name and leaves any other name alone. */
  lemma DisplayBump(prefix: seq<Value>, m: Value, p: Value -> bool, raw: Value -> string, name: string)
    requires p(m) && DisplayNameOf(prefix, p, raw, name)
    ensures DisplayNameOf(prefix + [m], p, raw,
                          if (name == UnnamedMission || name == UndefinedGroup) && raw(m) != "" then raw(m) else name)
  {
    var ms := prefix + [m];
    var n := |prefix|;
    assert forall j :: 0 <= j < n ==> ms[j] == prefix[j];
    assert ms[n] == m;
    if !NoRealName(prefix, p, raw) {
      assert RealName(name);
      var j :| 0 <= j < n && p(prefix[j]) && RealName(raw(prefix[j]));
      assert p(ms[j]) && RealName(raw(ms[j]));
      forall i: nat | FirstRealAt(ms, p, raw, i) ensures FirstRealAt(prefix, p, raw, i) {
      }
    } else if raw(m) != "" {
      assert NoRealName(ms, p, raw) <==> !RealName(raw(m));
      assert !AllBlank(ms, p, raw);
      forall i: nat | FirstRealAt(ms, p, raw, i) ensures i == n {
      }
      forall i: nat | LastNamedAt(ms, p, raw, i) ensures i == n {
      }
    } else {
      assert NoRealName(ms, p, raw);
      assert AllBlank(ms, p, raw) <==> AllBlank(prefix, p, raw);
      assert forall i: nat :: !FirstRealAt(ms, p, raw, i);
      forall i: nat | LastNamedAt(ms, p, raw, i) ensures LastNamedAt(prefix, p, raw, i) {
      }
    }
  }

  /** Outside the Sky Care group, the row's name follows `DisplayNameOf`. */
  lemma {:induction false} RowDisplayName(missions: seq<Value>, visible: Value -> bool, key: Value -> string,
                                          raw: Value -> string, pieces: Value -> Finite, k: string)
    ensures var row := RowOf(missions, visible, key, raw, pieces, k);
            k != SkyCareKey && row.Some? ==> DisplayNameOf(missions, InGroupOf(visible, key, k), raw, row.value.name)
    decreases |missions|
  {
    if |missions| > 0 && k != SkyCareKey {
      var n := |missions| - 1;
      var prefix, m := missions[..n], missions[n];
      var p := InGroupOf(visible, key, k);
      var before := RowOf(prefix, visible, key, raw, pieces, k);
      assert missions == prefix + [m];
      RowDisplayName(prefix, visible, key, raw, pieces, k);
      if !p(m) {
        if before.Some? {
          DisplaySkip(prefix, m, p, raw, before.value.name);
        }
      } else if before.None? {
        RowExists(prefix, visible, key, raw, pieces, k);
        DisplayFirst(prefix, m, p, raw);
      } else {
        DisplayBump(prefix, m, p, raw, before.value.name);
      }
    }
  }

  lemma {:induction false} LoopKeysUnique(missions: seq<Value>, visible: Value -> bool, key: Value -> string,
                                          raw: Value -> string, pieces: Value -> Finite)
    ensures UniqueKeys(GroupLoop(missions, visible, key, raw, pieces))
    decreases |missions|
  {
    if |missions| > 0 {
      var n := |missions| - 1;
      LoopKeysUnique(missions[..n], visible, key, raw, pieces);
      var m := missions[n];
      if visible(m) {
        UpsertKeepsUnique(GroupLoop(missions[..n], visible, key, raw, pieces), key(m), Bump(key(m), raw(m), pieces(m)));
      }
    }
  }

  /** A group has a row exactly when a visible mission is in the group; the
      row's count is Σ pieces over those missions in key order; its name is
      never empty, it is "Sky Care" for the Sky Care group, and for any other
      group it is the first real raw name of the group, or a placeholder
      when there is none (`DisplayNameOf`). */
  lemma GroupRow(missions: seq<Value>, k: string)
    ensures var row := Lookup(GroupMissions(missions), k);
            && (row.Some? <==> exists i :: 0 <= i < |missions| && InGroup(k)(missions[i]))
            && (row.Some? ==> row.value.count == Sum(Filter(missions, InGroup(k)), PiecesOf(MissionPieces)))
            && (row.Some? ==> NameFor(k, row.value))
            && (row.Some? && k != SkyCareKey ==> DisplayNameOf(missions, InGroup(k), RawName, row.value.name))
  {
    LookupIsRowOf(missions, Visible, MissionKey, RawName, MissionPieces, k);
    RowExists(missions, Visible, MissionKey, RawName, MissionPieces, k);
    RowCount(missions, Visible, MissionKey, RawName, MissionPieces, k);
    RowName(missions, Visible, MissionKey, RawName, MissionPieces, k);
    RowDisplayName(missions, Visible, MissionKey, RawName, MissionPieces, k);
  }

  /** A falsy or hidden mission is skipped: the rows are those of the other missions. */
  lemma HiddenMissionIgnored(missions: seq<Value>, m: Value)
    requires !Visible(m)
    ensures GroupMissions(missions + [m]) == GroupMissions(missions)
  {
    assert (missions + [m])[..|missions|] == missions;
  }

  /** Rows are stored under distinct group keys. */
  lemma GroupKeysUnique(missions: seq<Value>)
    ensures UniqueKeys(GroupMissions(missions))
  {
    LoopKeysUnique(missions, Visible, MissionKey, RawName, MissionPieces);
  }

  /** The leaderboard: group rows with a positive count only, ranked by
      count then name, exactly `max(0, limit | 0)` of them or all of them
      when there are fewer, a prefix of the whole ranked list. */
  lemma TopMissionTotalsFacts(missions: seq<(string, Value)>, limit: Number)
    ensures var r, rows := TopMissionTotals(missions, limit), Filter(ValuesOf(GroupMissions(ValuesOf(missions))), HasPieces);
            && RankedByCount(r)
            && |r| == (if RowLimit(limit) < |rows| then RowLimit(limit) else |rows|)
            && (forall i :: 0 <= i < |r| ==> Lt(Zero, r[i].count))
            && (forall i :: 0 <= i < |r| ==> r[i] in ValuesOf(GroupMissions(ValuesOf(missions))))
            && r == RankRows(rows)[..|r|]
  {
    var all := ValuesOf(GroupMissions(ValuesOf(missions)));
    var rows := Filter(all, HasPieces);
    var r := TopMissionTotals(missions, limit);
    RankRowsFacts(rows);
    assert |RankRows(rows)| == |rows| by {
      assert |multiset(RankRows(rows))| == |multiset(rows)|;
    }
    forall i | 0 <= i < |r| ensures Lt(Zero, r[i].count) && r[i] in all {
      assert r[i] in multiset(rows);
      FilterMembers(all, HasPieces, r[i]);
    }
  }
}
