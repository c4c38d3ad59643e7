/** The ship-catalog data migration (ops/migrations/0006_load_ship_catalog.py):
    a lenient crew-range parser, a first-match keyword classifier that
    turns a free-text role into a category code, and the loop that upserts
    every catalog entry into the ship table by name. */
module ShipCatalog {
  import opened Wrappers
  import opened Text
  import opened Models

  // ---------------------------------------------------------------------
  // Crew ranges (`_parse_crew`)

  /** Position of the first occurrence of `c` (where `split(c, 1)` cuts). */
  function IndexOf(s: string, c: char): (i: nat)
    requires c in s
    ensures i < |s| && s[i] == c && c !in s[..i]
  {
    if s[0] == c then 0
    else
      assert c in s[1..] by {
        var k :| 0 <= k < |s| && s[k] == c;
        assert s[1..][k - 1] == c;
      }
      var j := IndexOf(s[1..], c);
      assert s[..j + 1] == [s[0]] + s[1..][..j];
      j + 1
  }

  /** `_parse_crew`: "2-4" gives (2, 4), "3" gives (3, 3), and blank, "-",
      "?" or unparseable text gives zeros. Whatever the text, the minimum is
      not negative and the maximum is not below the minimum. */
  function ParseCrew(value: string): (r: (int, int))
    ensures 0 <= r.0 <= r.1
  {
    var v := Strip(value);
    if v == "" || v == "-" || v == "?" then (0, 0)
    else ParseCleaned(RemoveSpaces(v))
  }

  /** The rest of `_parse_crew`, on the text with all whitespace removed:
      split at the first hyphen, or read one number. The text before the
      first hyphen holds no minus sign, so the minimum is never negative. */
  function ParseCleaned(cleaned: string): (r: (int, int))
    ensures 0 <= r.0 <= r.1
  {
    var (minimum, maximum) :=
      if '-' in cleaned then
        var h := IndexOf(cleaned, '-');
        var low := ParseInt(cleaned[..h]).GetOr(0);
        (low, ParseInt(cleaned[h + 1..]).GetOr(low))
      else
        var n := ParseInt(cleaned).GetOr(0);
        (n, n);
    (minimum, if maximum < minimum then minimum else maximum)
  }

  lemma {:induction false} TrimLeftOfSpaces(s: string)
    requires AllSpaces(s)
    ensures TrimLeft(s) == []
  {
    if s != [] {
      TrimLeftOfSpaces(s[1..]);
    }
  }

  /** Empty or whitespace-only text gives no crew. */
  lemma ParseCrewBlank(value: string)
    requires AllSpaces(value)
    ensures ParseCrew(value) == (0, 0)
  {
    TrimLeftOfSpaces(value);
  }

  /** A lone "-" or "?" placeholder, with any surrounding whitespace,
      means an unknown crew and gives (0, 0). */
  lemma ParseCrewPlaceholder(value: string)
    requires Strip(value) == "-" || Strip(value) == "?"
    ensures ParseCrew(value) == (0, 0)
  {
  }

  lemma StripSingle(value: string)
    requires |Strip(value)| == 1
    ensures RemoveSpaces(value) == Strip(value)
  {
    var v := Strip(value);
    var l := TrimLeft(value);
    assert v == l[..1] && l[0] == v[0];
    assert v == [v[0]] && !IsSpace(v[0]);
    assert RemoveSpaces(v) == [v[0]] + RemoveSpaces(v[1..]);
    RemoveSpacesOfStrip(value);
  }

  /** Whitespace anywhere is ignored: "2 - 4" parses as "2-4". */
  lemma ParseCrewIgnoresWhitespace(value: string)
    ensures ParseCrew(value) == ParseCrew(RemoveSpaces(value))
  {
    var v, w := Strip(value), RemoveSpaces(value);
    RemoveSpacesOfStrip(value);
    RemoveSpacesOfNoSpaces(w);
    StripOfNoSpaces(w);
    assert RemoveSpaces(v) == w;
    assert (v == "" || v == "-" || v == "?") == (w == "" || w == "-" || w == "?") by {
      if |v| >= 2 {
        StripLongKeepsTwo(value);
      } else if |v| == 1 {
        StripSingle(value);
      }
    }
  }

  /** With a hyphen the text splits at the first hyphen: an unparseable
      start gives a minimum of 0, an unparseable end a maximum equal to the
      minimum, and an end below the start is raised to it. */
  lemma ParseCrewRange(start: string, end: string)
    requires NoSpaces(start) && NoSpaces(end) && '-' !in start
    requires start != [] || end != []
    ensures var r := ParseCrew(start + "-" + end);
      && (ParseInt(start).None? ==> r.0 == 0)
      && (ParseInt(start).Some? ==> r.0 == ParseInt(start).value)
      && (ParseInt(end).None? ==> r.1 == r.0)
      && (ParseInt(end).Some? ==> r.1 == if ParseInt(end).value < r.0 then r.0 else ParseInt(end).value)
  {
    var s := start + "-" + end;
    HyphenJoin(start, end);
    StripOfNoSpaces(s);
    RemoveSpacesOfNoSpaces(s);
    assert ParseCrew(s) == ParseCleaned(s);
  }

  /** The joined text has no whitespace and its first hyphen is the
      joining one. */
  lemma HyphenJoin(start: string, end: string)
    requires NoSpaces(start) && NoSpaces(end) && '-' !in start
    ensures var s := start + "-" + end;
      && NoSpaces(s) && '-' in s && IndexOf(s, '-') == |start|
      && s[..|start|] == start && s[|start| + 1..] == end
  {
    var s := start + "-" + end;
    assert NoSpaces(s) by {
      forall i | 0 <= i < |s| ensures !IsSpace(s[i]) {
        if i < |start| { assert s[i] == start[i]; }
        else if i > |start| { assert s[i] == end[i - |start| - 1]; }
      }
    }
    assert s[|start|] == '-';
    assert s[..|start|] == start;
    assert s[|start| + 1..] == end;
  }

  /** Without a hyphen the whole text is one number, used as both bounds,
      and unparseable text gives zeros. */
  lemma ParseCrewSingle(value: string)
    requires NoSpaces(value) && '-' !in value && value != "?"
    ensures ParseCrew(value) == (ParseInt(value).GetOr(0), ParseInt(value).GetOr(0))
  {
    StripOfNoSpaces(value);
    RemoveSpacesOfNoSpaces(value);
  }

  /** `str(n)` parses back to the crew (n, n). */
  lemma ParseCrewOfNumber(n: nat)
    ensures ParseCrew(NatToDecimal(n)) == (n, n)
  {
    DecimalHasNoSpacesOrSign(n);
    ParseIntOfDecimal(n);
    var s := NatToDecimal(n);
    assert s != "?" by { assert IsDigit(s[0]); }
    ParseCrewSingle(s);
  }

  /** `f"{a}-{b}"` parses back to (a, b), with b raised to a when lower. */
  lemma ParseCrewOfRange(a: nat, b: nat)
    ensures ParseCrew(NatToDecimal(a) + "-" + NatToDecimal(b)) == (a, if b < a then a else b)
  {
    DecimalHasNoSpacesOrSign(a);
    DecimalHasNoSpacesOrSign(b);
    ParseIntOfDecimal(a);
    ParseIntOfDecimal(b);
    ParseCrewRange(NatToDecimal(a), NatToDecimal(b));
  }

  // ---------------------------------------------------------------------
  // Categories (`_determine_category`)

  /** The category codes of a ship. */
  const CategoryCodes: set<string> := {"LF", "MF", "HF", "MR", "CAP"}

  const CapitalKeywords: seq<string> := [
    "destroyer", "frigate", "corvette", "carrier", "dread", "capital",
    "large passenger", "heavy gunship", "heavy freight", "heavy salvage",
    "heavy construction", "heavy mining", "light carrier"]

  const SupportKeywords: seq<string> := [
    "freight", "cargo", "transport", "expedition", "exploration", "dropship",
    "medical", "passenger", "science", "refuel", "repair", "salvage",
    "mining", "pathfinder", "data", "boarding", "interdiction", "modular",
    "rescue"]

  /** `any(keyword in text for keyword in keywords)`. */
  predicate AnyKeyword(text: string, keywords: seq<string>) {
    exists k :: k in keywords && Contains(text, k)
  }

  /** `_determine_category`: the checks run in a fixed order and the first
      match wins; whatever matches nothing is multirole. */
  function DetermineCategory(role: string): (code: string)
    ensures code in CategoryCodes
  {
    var text := ToLower(role);
    if AnyKeyword(text, CapitalKeywords) then "CAP"
    else if Contains(text, "heavy fighter") then "HF"
    else if Contains(text, "medium fighter") then "MF"
    else if Contains(text, "light fighter") || Contains(text, "snub") || Contains(text, "racing") then "LF"
    else if Contains(text, "gunship") then "HF"
    else if Contains(text, "bomber") then "MF"
    else if AnyKeyword(text, SupportKeywords) then "MR"
    else "MR"
  }

  /** An ordered rule table: keywords and the code they select. */
  datatype Rule = Rule(keywords: seq<string>, code: string)

  /** The classifier's checks written as an explicit ordered rule list. */
  const Rules: seq<Rule> := [
    Rule(CapitalKeywords, "CAP"),
    Rule(["heavy fighter"], "HF"),
    Rule(["medium fighter"], "MF"),
    Rule(["light fighter", "snub", "racing"], "LF"),
    Rule(["gunship"], "HF"),
    Rule(["bomber"], "MF"),
    Rule(SupportKeywords, "MR")]

  /** The code of the first rule with a keyword in `text`, else `fallback`. */
  function FirstMatch(rules: seq<Rule>, text: string, fallback: string): (code: string)
    ensures code == fallback || exists i :: 0 <= i < |rules| && code == rules[i].code
  {
    if rules == [] then fallback
    else if AnyKeyword(text, rules[0].keywords) then rules[0].code
    else FirstMatch(rules[1..], text, fallback)
  }

  /** First match wins: the rule chosen is the earliest one that matches. */
  lemma {:induction false} FirstMatchIsEarliest(rules: seq<Rule>, text: string, fallback: string, i: nat)
    requires i < |rules| && AnyKeyword(text, rules[i].keywords)
    requires forall j :: 0 <= j < i ==> !AnyKeyword(text, rules[j].keywords)
    ensures FirstMatch(rules, text, fallback) == rules[i].code
  {
    if i > 0 {
      assert !AnyKeyword(text, rules[0].keywords);
      forall j | 0 <= j < i - 1 ensures !AnyKeyword(text, rules[1..][j].keywords) {
        assert rules[1..][j] == rules[j + 1];
      }
      FirstMatchIsEarliest(rules[1..], text, fallback, i - 1);
    }
  }

  /** A final rule that selects the fallback code changes nothing. */
  lemma {:induction false} FirstMatchDropFallbackRule(rules: seq<Rule>, last: Rule, text: string)
    ensures FirstMatch(rules + [last], text, last.code) == FirstMatch(rules, text, last.code)
  {
    if rules == [] {
      assert [] + [last] == [last];
    } else {
      assert (rules + [last])[1..] == rules[1..] + [last];
      FirstMatchDropFallbackRule(rules[1..], last, text);
    }
  }

  /** The classifier is the first-match evaluation of the rule table on the
      lower-cased role, with multirole as the fallback. */
  lemma FirstMatchStep(r: Rule, rest: seq<Rule>, text: string, fallback: string)
    ensures FirstMatch([r] + rest, text, fallback)
         == if AnyKeyword(text, r.keywords) then r.code else FirstMatch(rest, text, fallback)
  {
    assert ([r] + rest)[1..] == rest;
  }

  lemma AnyOfOne(text: string, a: string)
    ensures AnyKeyword(text, [a]) == Contains(text, a)
  {
    if Contains(text, a) {
      assert a in [a];
    }
  }

  lemma AnyOfThree(text: string, a: string, b: string, c: string)
    ensures AnyKeyword(text, [a, b, c]) == (Contains(text, a) || Contains(text, b) || Contains(text, c))
  {
    var ks := [a, b, c];
    if Contains(text, a) { assert ks[0] in ks; }
    if Contains(text, b) { assert ks[1] in ks; }
    if Contains(text, c) { assert ks[2] in ks; }
  }

  /** The classifier is the first-match evaluation of the rule table on the
      lower-cased role, with multirole as the fallback. */
  lemma DetermineCategoryFollowsRules(role: string)
    ensures DetermineCategory(role) == FirstMatch(Rules, ToLower(role), "MR")
  {
    var text, fb := ToLower(role), "MR";
    var r6 := [Rule(SupportKeywords, "MR")];
    var r5 := [Rule(["bomber"], "MF")] + r6;
    var r4 := [Rule(["gunship"], "HF")] + r5;
    var r3 := [Rule(["light fighter", "snub", "racing"], "LF")] + r4;
    var r2 := [Rule(["medium fighter"], "MF")] + r3;
    var r1 := [Rule(["heavy fighter"], "HF")] + r2;
    assert Rules == [Rule(CapitalKeywords, "CAP")] + r1;
    FirstMatchStep(Rule(SupportKeywords, "MR"), [], text, fb);
    FirstMatchStep(Rule(["bomber"], "MF"), r6, text, fb);
    FirstMatchStep(Rule(["gunship"], "HF"), r5, text, fb);
    FirstMatchStep(Rule(["light fighter", "snub", "racing"], "LF"), r4, text, fb);
    FirstMatchStep(Rule(["medium fighter"], "MF"), r3, text, fb);
    FirstMatchStep(Rule(["heavy fighter"], "HF"), r2, text, fb);
    FirstMatchStep(Rule(CapitalKeywords, "CAP"), r1, text, fb);
    AnyOfOne(text, "bomber");
    AnyOfOne(text, "gunship");
    AnyOfThree(text, "light fighter", "snub", "racing");
    AnyOfOne(text, "medium fighter");
    AnyOfOne(text, "heavy fighter");
  }

  /** The support keywords never decide anything: dropping their rule gives
      the same category for every role. */
  lemma SupportKeywordsAreRedundant(role: string)
    ensures DetermineCategory(role) == FirstMatch(Rules[..6], ToLower(role), "MR")
  {
    DetermineCategoryFollowsRules(role);
    assert Rules == Rules[..6] + [Rule(SupportKeywords, "MR")];
    FirstMatchDropFallbackRule(Rules[..6], Rule(SupportKeywords, "MR"), ToLower(role));
  }

  /** Classification ignores letter case. */
  lemma DetermineCategoryIgnoresCase(role: string)
    ensures DetermineCategory(ToLower(role)) == DetermineCategory(role)
  {
    assert ToLower(ToLower(role)) == ToLower(role);
  }

  /** Any role mentioning "heavy gunship", in any letter case, is capital:
      the capital keywords are checked before the gunship rule. */
  lemma HeavyGunshipIsCapital(role: string)
    requires Contains(ToLower(role), "heavy gunship")
    ensures DetermineCategory(role) == "CAP"
  {
    assert "heavy gunship" in CapitalKeywords;
  }

  /** A keyword with a character the text lacks is not in the text. */
  lemma NotContained(text: string, kw: string, j: nat)
    requires j < |kw| && kw[j] !in text
    ensures !Contains(text, kw)
  {
    if Contains(text, kw) {
      ContainsChars(text, kw);
    }
  }

  /** The text "gunship" holds none of the capital keywords. */
  /** No keyword longer than the text, or starting with a character the
      text lacks, is in the text. */
  lemma NoKeywordContained(t: string, keywords: seq<string>)
    requires forall k :: k in keywords ==> |k| > |t| || (k != [] && k[0] !in t)
    ensures !AnyKeyword(t, keywords)
  {
    forall k | k in keywords ensures !Contains(t, k) {
      if |k| <= |t| {
        NotContained(t, k, 0);
      }
    }
  }

  lemma GunshipHasNoCapitalKeyword(t: string)
    requires t == "gunship"
    ensures !AnyKeyword(t, CapitalKeywords)
  {
    NoKeywordContained(t, CapitalKeywords);
  }

  /** The text "gunship" holds none of the fighter keywords. */
  lemma GunshipHasNoFighterKeyword(t: string)
    requires t == "gunship"
    ensures !Contains(t, "heavy fighter") && !Contains(t, "medium fighter")
    ensures !Contains(t, "light fighter") && !Contains(t, "snub") && !Contains(t, "racing")
  {
    NotContained(t, "snub", 3);
    NotContained(t, "racing", 0);
  }

  /** "gunship", in any letter case, matches no earlier rule and is a
      heavy fighter. */
  lemma GunshipIsHeavyFighter(role: string)
    requires ToLower(role) == "gunship"
    ensures DetermineCategory(role) == "HF"
  {
    var t := ToLower(role);
    GunshipHasNoCapitalKeyword(t);
    GunshipHasNoFighterKeyword(t);
    assert Contains(t, "gunship");
  }

  // ---------------------------------------------------------------------
  // Loading the catalog (`load_ship_catalog`)

  /** One entry of the external catalog; `None` is a missing key. */
  datatype CatalogEntry = CatalogEntry(
    name: string,
    manufacturer: Option<string>,
    role: Option<string>,
    crew: Option<string>,
    cargo: Option<string>)

  /** The row `update_or_create` writes for an entry: parsed crew with the
      maximum raised to the minimum, the derived category, and "-" for a
      missing or blank cargo. `ShipFromEntryFields` ties each field to the
      entry. */
  function ShipFromEntry(e: CatalogEntry): (s: Ship)
    ensures s.name == e.name && s.minCrew <= s.maxCrew
    ensures s.category in CategoryCodes && s.cargoCapacity != ""
  {
    var crew := ParseCrew(e.crew.GetOr(""));
    var low := crew.0 as nat;
    var high := if crew.1 < low then low else crew.1 as nat;
    var cargo := Strip(e.cargo.GetOr("-"));
    Ship(e.name, e.manufacturer.GetOr(""), e.role.GetOr(""),
         if cargo == "" then "-" else cargo,
         low, high, DetermineCategory(e.role.GetOr("")))
  }

  /** The row written for an entry, field by field. Since the parsed crew
      is already ordered, raising the maximum to the minimum never changes
      it: the row's crew is exactly the parsed crew. The category is derived
      from the role, the manufacturer and role are the entry's own ("" when
      missing), and the cargo is "-" when missing or blank and the stripped
      text otherwise. */
  lemma ShipFromEntryFields(e: CatalogEntry)
    ensures var s := ShipFromEntry(e);
      && (s.minCrew as int, s.maxCrew as int) == ParseCrew(e.crew.GetOr(""))
      && s.category == DetermineCategory(e.role.GetOr(""))
      && s.manufacturer == e.manufacturer.GetOr("") && s.role == e.role.GetOr("")
      && s.cargoCapacity == (if e.cargo.None? || Strip(e.cargo.value) == "" then "-" else Strip(e.cargo.value))
  {
  }

  /** The names the catalog mentions. */
  function EntryNames(data: seq<CatalogEntry>): set<string> {
    if data == [] then {} else EntryNames(data[..|data| - 1]) + {data[|data| - 1].name}
  }

  /** The ship table after upserting the entries one after another. */
  function Loaded(ships: map<string, Ship>, data: seq<CatalogEntry>): map<string, Ship> {
    if data == [] then ships
    else
      var last := data[|data| - 1];
      Loaded(ships, data[..|data| - 1])[last.name := ShipFromEntry(last)]
  }

  /** No later entry carries the same name as entry `i`. */
  predicate LastWithName(data: seq<CatalogEntry>, i: nat)
    requires i < |data|
  {
    forall j :: i < j < |data| ==> data[j].name != data[i].name
  }

  /** Loading adds exactly the catalog's names to the table. */
  lemma {:induction false} LoadedKeys(ships: map<string, Ship>, data: seq<CatalogEntry>)
    ensures Loaded(ships, data).Keys == ships.Keys + EntryNames(data)
  {
    if data != [] {
      LoadedKeys(ships, data[..|data| - 1]);
    }
  }

  /** Ships that no catalog entry names are left as they were. */
  lemma {:induction false} LoadedKeepsOthers(ships: map<string, Ship>, data: seq<CatalogEntry>, n: string)
    requires n in ships && n !in EntryNames(data)
    ensures n in Loaded(ships, data) && Loaded(ships, data)[n] == ships[n]
  {
    if data != [] {
      LoadedKeepsOthers(ships, data[..|data| - 1], n);
    }
  }

  /** The last entry of a name decides that ship's row. */
  lemma {:induction false} LoadedLastWins(ships: map<string, Ship>, data: seq<CatalogEntry>, i: nat)
    requires i < |data| && LastWithName(data, i)
    ensures data[i].name in Loaded(ships, data)
    ensures Loaded(ships, data)[data[i].name] == ShipFromEntry(data[i])
  {
    if i < |data| - 1 {
      var init := data[..|data| - 1];
      assert data[i] == init[i];
      assert LastWithName(init, i);
      LoadedLastWins(ships, init, i);
    }
  }

  /** The row of a name in the loaded table, field by field, from that
      name's last entry: parsed crew, derived category, the entry's own
      manufacturer and role, and its stripped cargo or "-". */
  lemma LoadedRow(ships: map<string, Ship>, data: seq<CatalogEntry>, i: nat)
    requires i < |data| && LastWithName(data, i)
    ensures data[i].name in Loaded(ships, data)
    ensures var s, e := Loaded(ships, data)[data[i].name], data[i];
      && (s.minCrew as int, s.maxCrew as int) == ParseCrew(e.crew.GetOr(""))
      && s.category == DetermineCategory(e.role.GetOr(""))
      && s.manufacturer == e.manufacturer.GetOr("") && s.role == e.role.GetOr("")
      && s.cargoCapacity == (if e.cargo.None? || Strip(e.cargo.value) == "" then "-" else Strip(e.cargo.value))
  {
    LoadedLastWins(ships, data, i);
    ShipFromEntryFields(data[i]);
  }

  /** Every ship the catalog names ends with max crew at least min crew. */
  lemma {:induction false} LoadedCrewOrdered(ships: map<string, Ship>, data: seq<CatalogEntry>, n: string)
    requires n in EntryNames(data)
    ensures n in Loaded(ships, data)
    ensures Loaded(ships, data)[n].minCrew <= Loaded(ships, data)[n].maxCrew
  {
    var init := data[..|data| - 1];
    if n != data[|data| - 1].name {
      LoadedCrewOrdered(ships, init, n);
    }
  }

  /** Rows stay keyed by their own name. */
  lemma {:induction false} LoadedKeepsKeys(ships: map<string, Ship>, data: seq<CatalogEntry>)
    requires ShipTable(ships)
    ensures ShipTable(Loaded(ships, data))
  {
    if data != [] {
      LoadedKeepsKeys(ships, data[..|data| - 1]);
    }
  }

  /** The properties of loading, gathered for the method below. */
  lemma LoadedFacts(ships: map<string, Ship>, data: seq<CatalogEntry>)
    ensures Loaded(ships, data).Keys == ships.Keys + EntryNames(data)
    ensures forall n :: n in ships && n !in EntryNames(data) ==> Loaded(ships, data)[n] == ships[n]
    ensures forall i :: 0 <= i < |data| && LastWithName(data, i) ==>
      data[i].name in Loaded(ships, data) && Loaded(ships, data)[data[i].name] == ShipFromEntry(data[i])
    ensures forall n :: n in EntryNames(data) ==> Loaded(ships, data)[n].minCrew <= Loaded(ships, data)[n].maxCrew
    ensures ShipTable(ships) ==> ShipTable(Loaded(ships, data))
  {
    var result := Loaded(ships, data);
    LoadedKeys(ships, data);
    forall n | n in ships && n !in EntryNames(data) ensures result[n] == ships[n] {
      LoadedKeepsOthers(ships, data, n);
    }
    forall i | 0 <= i < |data| && LastWithName(data, i)
      ensures data[i].name in result && result[data[i].name] == ShipFromEntry(data[i])
    {
      LoadedLastWins(ships, data, i);
    }
    forall n | n in EntryNames(data) ensures result[n].minCrew <= result[n].maxCrew {
      LoadedCrewOrdered(ships, data, n);
    }
    if ShipTable(ships) {
      LoadedKeepsKeys(ships, data);
    }
  }

  /** `load_ship_catalog`: upsert every entry by name, then raise a stored
      max crew that is below the min crew. */
  method LoadShipCatalog(ships: map<string, Ship>, data: seq<CatalogEntry>) returns (result: map<string, Ship>)
    ensures result == Loaded(ships, data)
    ensures result.Keys == ships.Keys + EntryNames(data)
    ensures forall n :: n in ships && n !in EntryNames(data) ==> result[n] == ships[n]
    ensures forall i :: 0 <= i < |data| && LastWithName(data, i) ==>
      data[i].name in result && result[data[i].name] == ShipFromEntry(data[i])
    ensures forall n :: n in EntryNames(data) ==> result[n].minCrew <= result[n].maxCrew
    ensures ShipTable(ships) ==> ShipTable(result)
  {
    result := ships;
    var i := 0;
    while i < |data|
      invariant 0 <= i <= |data|
      invariant result == Loaded(ships, data[..i])
    {
      LoadedStep(ships, data, i);
      var entry := data[i];
      var ship := ShipFromEntry(entry);
      result := result[entry.name := ship];
      if result[entry.name].maxCrew < result[entry.name].minCrew {
        result := result[entry.name := ship.(maxCrew := ship.minCrew)];
      }
      i := i + 1;
    }
    assert data[..|data|] == data;
    LoadedFacts(ships, data);
  }

  lemma LoadedStep(ships: map<string, Ship>, data: seq<CatalogEntry>, i: nat)
    requires i < |data|
    ensures Loaded(ships, data[..i + 1]) == Loaded(ships, data[..i])[data[i].name := ShipFromEntry(data[i])]
  {
    assert data[..i + 1][..i] == data[..i];
  }
}
