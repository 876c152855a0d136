/** `load_data`: cleaning the athlete table and joining it onto the medallist table. */
module Loader {
  import opened Wrappers
  import opened Ages
  import opened Geography
  import opened Tables

  /** The characters the discipline cleaning deletes: `[`, `]` and `'`. */
  predicate Stripped(c: char)
  {
    c == '[' || c == ']' || c == '\''
  }

  /** `str.replace(r"[\[\]']", "", regex=True)`: delete every bracket and single quote. */
  function StripListSyntax(s: string): string
    decreases |s|
  {
    if s == [] then []
    else (if Stripped(s[0]) then [] else [s[0]]) + StripListSyntax(s[1..])
  }

  /** No bracket or quote is left, and every remaining character comes from the input. */
  lemma {:induction false} StripRemovesListSyntax(s: string)
    ensures forall c :: c in StripListSyntax(s) ==> c in s && !Stripped(c)
    decreases |s|
  {
    if s != [] {
      StripRemovesListSyntax(s[1..]);
    }
  }

  /** Every other character keeps its number of occurrences. */
  lemma {:induction false} StripKeepsOtherCharacters(s: string, c: char)
    requires !Stripped(c)
    ensures multiset(StripListSyntax(s))[c] == multiset(s)[c]
    decreases |s|
  {
    if s != [] {
      assert s == [s[0]] + s[1..];
      StripKeepsOtherCharacters(s[1..], c);
    }
  }

  /** Text that holds none of the deleted characters comes through unchanged. */
  lemma {:induction false} StripKeepsCleanText(s: string)
    requires forall c :: c in s ==> !Stripped(c)
    ensures StripListSyntax(s) == s
    decreases |s|
  {
    if s != [] {
      assert s[0] in s;
      assert forall c :: c in s[1..] ==> c in s;
      StripKeepsCleanText(s[1..]);
    }
  }

  /** Cleaning twice is cleaning once. */
  lemma StripIdempotent(s: string)
    ensures StripListSyntax(StripListSyntax(s)) == StripListSyntax(s)
  {
    StripRemovesListSyntax(s);
    StripKeepsCleanText(StripListSyntax(s));
  }

  /** Cleaning keeps the order of the kept characters: it distributes over concatenation. */
  lemma {:induction false} StripAppend(a: string, b: string)
    ensures StripListSyntax(a + b) == StripListSyntax(a) + StripListSyntax(b)
    decreases |a|
  {
    if a == [] {
      assert a + b == b;
    } else {
      var ab := a + b;
      assert ab[0] == a[0] && ab[1..] == a[1..] + b;
      StripAppend(a[1..], b);
      var h := if Stripped(a[0]) then [] else [a[0]];
      calc {
        StripListSyntax(ab);
        h + StripListSyntax(a[1..] + b);
        h + (StripListSyntax(a[1..]) + StripListSyntax(b));
        (h + StripListSyntax(a[1..])) + StripListSyntax(b);
      }
    }
  }

  /** `astype(str)` then the cleaning: a missing value becomes the text "nan" first. */
  function CleanDisciplines(raw: Option<string>): (r: string)
    ensures raw.None? ==> r == "nan"
    ensures raw.Some? ==> r == StripListSyntax(raw.value)
  {
    if raw.None? then
      StripKeepsCleanText("nan");
      StripListSyntax("nan")
    else StripListSyntax(raw.value)
  }

  /**
   * A one-element list as the CSV stores it, `"['Swimming']"`, becomes the bare
   * discipline name.
   */
  lemma CleanSingleDiscipline(word: string)
    requires forall c :: c in word ==> !Stripped(c)
    ensures CleanDisciplines(Some("['" + word + "']")) == word
  {
    var open, close := "['", "']";
    assert StripListSyntax(open) == [] by {
      assert open[1..][1..] == [];
    }
    assert StripListSyntax(close) == [] by {
      assert close[1..][1..] == [];
    }
    StripKeepsCleanText(word);
    StripAppend(open, word);
    StripAppend(open + word, close);
  }

  /** One athlete row after the column assignments of the cleaning step. */
  function EnrichAthlete(raw: RawAthlete, today: Date, geo: Lookups): Athlete
  {
    Athlete(raw.code, raw.name, raw.country, raw.gender, raw.birthDate,
            CleanDisciplines(raw.disciplines),
            CalculateAge(raw.birthDate, today),
            GetContinent(geo, raw.country))
  }

  /** The athletes whose `code` is `code`, in table order. */
  function Matches(code: int, athletes: seq<Athlete>): seq<Athlete>
    decreases |athletes|
  {
    if athletes == [] then []
    else Matches(code, athletes[..|athletes| - 1]) + if athletes[|athletes| - 1].code == code then [athletes[|athletes| - 1]] else []
  }

  /** The matches are exactly the athletes of the table with that code. */
  lemma {:induction false} MatchesSpec(code: int, athletes: seq<Athlete>)
    ensures forall a :: a in Matches(code, athletes) ==> a in athletes && a.code == code
    ensures forall a :: a in athletes && a.code == code ==> a in Matches(code, athletes)
    decreases |athletes|
  {
    if athletes != [] {
      var init, last := athletes[..|athletes| - 1], athletes[|athletes| - 1];
      MatchesSpec(code, init);
      assert athletes == init + [last];
    }
  }

  /**
   * The merged row for medallist `m` and its matching athlete, if any. The
   * medallist's own gender is not read: the source drops that column first.
   */
  function MergedRow(m: RawMedallist, athlete: Option<Athlete>, geo: Lookups): Medallist
  {
    Medallist(m.codeAthlete, m.country, m.discipline, m.event, m.medalType,
              if athlete.Some? then Some(athlete.value.code) else None,
              if athlete.Some? then athlete.value.age else None,
              if athlete.Some? then athlete.value.gender else None,
              GetContinent(geo, m.country))
  }

  /** The rows a left merge produces for one medallist: one per matching athlete, or one unmatched row. */
  function JoinRow(m: RawMedallist, athletes: seq<Athlete>, geo: Lookups): seq<Medallist>
  {
    var found := Matches(m.codeAthlete, athletes);
    if found == [] then [MergedRow(m, None, geo)]
    else seq(|found|, k requires 0 <= k < |found| => MergedRow(m, Some(found[k]), geo))
  }

  /**
   * `medallists.drop(columns=['gender']).merge(athletes[['code', 'Age', 'gender']],
   * left_on='code_athlete', right_on='code', how='left')` followed by the
   * `Continent` column: the medallist rows in order, each expanded by `JoinRow`.
   */
  function LeftJoin(ms: seq<RawMedallist>, athletes: seq<Athlete>, geo: Lookups): seq<Medallist>
    decreases |ms|
  {
    if ms == [] then []
    else LeftJoin(ms[..|ms| - 1], athletes, geo) + JoinRow(ms[|ms| - 1], athletes, geo)
  }

  /** Athlete codes identify athletes: no code occurs twice. */
  ghost predicate UniqueCodes(athletes: seq<Athlete>)
  {
    forall i, j :: 0 <= i < j < |athletes| ==> athletes[i].code != athletes[j].code
  }

  /** Merged row `r` carries medallist `m`'s medal columns and the continent of `m`'s own country. */
  ghost predicate SameMedal(r: Medallist, m: RawMedallist, geo: Lookups)
  {
    && r.codeAthlete == m.codeAthlete
    && r.country == m.country
    && r.discipline == m.discipline
    && r.event == m.event
    && r.medalType == m.medalType
    && r.continent == GetContinent(geo, m.country)
  }

  /** The first athlete whose code is `code`, if there is one. */
  function AthleteByCode(code: int, athletes: seq<Athlete>): Option<Athlete>
    decreases |athletes|
  {
    if athletes == [] then None
    else if athletes[0].code == code then Some(athletes[0])
    else AthleteByCode(code, athletes[1..])
  }

  /** No athlete is found exactly when none has the code; one found has it and is in the table. */
  lemma {:induction false} AthleteByCodeSpec(code: int, athletes: seq<Athlete>)
    ensures AthleteByCode(code, athletes).None? <==> forall a :: a in athletes ==> a.code != code
    ensures AthleteByCode(code, athletes).Some? ==>
      AthleteByCode(code, athletes).value in athletes && AthleteByCode(code, athletes).value.code == code
    decreases |athletes|
  {
    if athletes != [] {
      AthleteByCodeSpec(code, athletes[1..]);
      assert athletes == [athletes[0]] + athletes[1..];
    }
  }

  /**
   * Merged row `r` is medallist `m` completed from the athlete table: `code`,
   * `Age` and `gender` are those of the athlete whose code is `m`'s
   * `code_athlete`, or all absent when there is none.
   */
  ghost predicate JoinedFrom(r: Medallist, m: RawMedallist, athletes: seq<Athlete>, geo: Lookups)
  {
    && SameMedal(r, m, geo)
    && match AthleteByCode(m.codeAthlete, athletes)
       case None => r.code.None? && r.age.None? && r.gender.None?
       case Some(a) => r.code == Some(a.code) && r.age == a.age && r.gender == a.gender
  }

  /** With unique codes, two athletes with one code are the same athlete. */
  lemma SameCodeSameAthlete(athletes: seq<Athlete>, a: Athlete, b: Athlete)
    requires UniqueCodes(athletes)
    requires a in athletes && b in athletes && a.code == b.code
    ensures a == b
  {
  }

  /** A code no athlete has matches nothing. */
  lemma {:induction false} NoMatches(code: int, athletes: seq<Athlete>)
    requires forall a :: a in athletes ==> a.code != code
    ensures Matches(code, athletes) == []
    decreases |athletes|
  {
    if athletes != [] {
      var init := athletes[..|athletes| - 1];
      assert forall a :: a in init ==> a in athletes;
      NoMatches(code, init);
    }
  }

  /** With unique codes an athlete code matches at most one athlete. */
  lemma {:induction false} MatchesAtMostOne(code: int, athletes: seq<Athlete>)
    requires UniqueCodes(athletes)
    ensures |Matches(code, athletes)| <= 1
    decreases |athletes|
  {
    if athletes != [] {
      var init, last := athletes[..|athletes| - 1], athletes[|athletes| - 1];
      MatchesAtMostOne(code, init);
      if last.code == code {
        forall a | a in init ensures a.code != code {
          var k :| 0 <= k < |init| && init[k] == a;
          assert athletes[k] == a;
        }
        NoMatches(code, init);
      }
    }
  }

  /** Each medallist gives at least one merged row, and each of them carries its medal. */
  lemma JoinRowShape(m: RawMedallist, athletes: seq<Athlete>, geo: Lookups)
    ensures |JoinRow(m, athletes, geo)| >= 1
    ensures forall r :: r in JoinRow(m, athletes, geo) ==> SameMedal(r, m, geo)
  {
  }

  /** With unique codes a medallist gives exactly one merged row, completed from its athlete. */
  lemma JoinRowUnique(m: RawMedallist, athletes: seq<Athlete>, geo: Lookups)
    requires UniqueCodes(athletes)
    ensures |JoinRow(m, athletes, geo)| == 1
    ensures JoinedFrom(JoinRow(m, athletes, geo)[0], m, athletes, geo)
  {
    var found := Matches(m.codeAthlete, athletes);
    MatchesAtMostOne(m.codeAthlete, athletes);
    MatchesSpec(m.codeAthlete, athletes);
    AthleteByCodeSpec(m.codeAthlete, athletes);
    var byCode := AthleteByCode(m.codeAthlete, athletes);
    if found != [] {
      assert found[0] in found;
      SameCodeSameAthlete(athletes, found[0], byCode.value);
    }
  }

  /**
   * Merged row `r` of medallist `m` is completed from an athlete with `m`'s
   * code, or, when no athlete has that code, has `code`, `Age` and `gender`
   * all absent.
   */
  ghost predicate CompletedFrom(r: Medallist, m: RawMedallist, athletes: seq<Athlete>)
  {
    || (exists a :: a in athletes && a.code == m.codeAthlete
                 && r.code == Some(a.code) && r.age == a.age && r.gender == a.gender)
    || ((forall a :: a in athletes ==> a.code != m.codeAthlete)
        && r.code.None? && r.age.None? && r.gender.None?)
  }

  /**
   * Whatever the athlete table, a medallist gives one merged row per athlete
   * with its code (one unmatched row when there is none), and every such row
   * carries its medal and is completed from an athlete with its code.
   */
  lemma JoinRowGeneral(m: RawMedallist, athletes: seq<Athlete>, geo: Lookups)
    ensures |JoinRow(m, athletes, geo)| ==
      if Matches(m.codeAthlete, athletes) == [] then 1 else |Matches(m.codeAthlete, athletes)|
    ensures forall r :: r in JoinRow(m, athletes, geo) ==>
      SameMedal(r, m, geo) && CompletedFrom(r, m, athletes)
  {
    var found := Matches(m.codeAthlete, athletes);
    MatchesSpec(m.codeAthlete, athletes);
    forall r | r in JoinRow(m, athletes, geo) ensures CompletedFrom(r, m, athletes) {
      if found != [] {
        var k :| 0 <= k < |found| && JoinRow(m, athletes, geo)[k] == r;
        assert found[k] in found;
      }
    }
  }

  /** Where the merged rows of medallist `i` begin: after those of all earlier medallists. */
  function JoinOffset(ms: seq<RawMedallist>, athletes: seq<Athlete>, geo: Lookups, i: nat): nat
    requires i <= |ms|
  {
    |LeftJoin(ms[..i], athletes, geo)|
  }

  /** Merging a prefix of the medallists gives a prefix of the merge. */
  lemma {:induction false} JoinPrefix(ms: seq<RawMedallist>, athletes: seq<Athlete>, geo: Lookups, i: nat)
    requires i <= |ms|
    ensures LeftJoin(ms[..i], athletes, geo) <= LeftJoin(ms, athletes, geo)
    decreases |ms|
  {
    if i < |ms| {
      var init := ms[..|ms| - 1];
      assert init[..i] == ms[..i];
      JoinPrefix(init, athletes, geo, i);
    } else {
      assert ms[..i] == ms;
    }
  }

  /** The merge is never shorter than the medallist table. */
  lemma {:induction false} JoinLength(ms: seq<RawMedallist>, athletes: seq<Athlete>, geo: Lookups)
    ensures |LeftJoin(ms, athletes, geo)| >= |ms|
    decreases |ms|
  {
    if ms != [] {
      JoinLength(ms[..|ms| - 1], athletes, geo);
      JoinRowShape(ms[|ms| - 1], athletes, geo);
    }
  }

  /**
   * Medallist `i`'s block of the merge is non-empty, lies inside the merge,
   * is exactly `i`'s own merged rows, and holds only rows carrying `i`'s medal.
   */
  ghost predicate BlockOf(ms: seq<RawMedallist>, athletes: seq<Athlete>, geo: Lookups, i: nat)
    requires i < |ms|
  {
    && JoinOffset(ms, athletes, geo, i) < JoinOffset(ms, athletes, geo, i + 1) <= |LeftJoin(ms, athletes, geo)|
    && LeftJoin(ms, athletes, geo)[JoinOffset(ms, athletes, geo, i)..JoinOffset(ms, athletes, geo, i + 1)]
       == JoinRow(ms[i], athletes, geo)
    && forall k :: JoinOffset(ms, athletes, geo, i) <= k < JoinOffset(ms, athletes, geo, i + 1) ==>
         SameMedal(LeftJoin(ms, athletes, geo)[k], ms[i], geo)
  }

  /** Merging one more medallist appends its rows. */
  lemma JoinSnoc(ms: seq<RawMedallist>, athletes: seq<Athlete>, geo: Lookups, i: nat)
    requires i < |ms|
    ensures LeftJoin(ms[..i + 1], athletes, geo) == LeftJoin(ms[..i], athletes, geo) + JoinRow(ms[i], athletes, geo)
  {
    assert ms[..i + 1][..i] == ms[..i];
  }

  /** A block of rows appended after `before` sits in any merge extending it, and carries the medal. */
  lemma BlockRows(all: seq<Medallist>, before: seq<Medallist>, rows: seq<Medallist>, m: RawMedallist, geo: Lookups)
    requires before + rows <= all
    requires forall r :: r in rows ==> SameMedal(r, m, geo)
    ensures all[|before|..|before| + |rows|] == rows
    ensures forall k :: |before| <= k < |before| + |rows| ==> SameMedal(all[k], m, geo)
  {
    forall k | |before| <= k < |before| + |rows| ensures all[k] == rows[k - |before|] {
      assert all[k] == (before + rows)[k];
    }
    forall k | |before| <= k < |before| + |rows| ensures SameMedal(all[k], m, geo) {
      assert rows[k - |before|] in rows;
    }
  }

  /** Medallist `i`'s rows form a non-empty block of the merge, each carrying `i`'s medal. */
  lemma JoinBlock(ms: seq<RawMedallist>, athletes: seq<Athlete>, geo: Lookups, i: nat)
    requires i < |ms|
    ensures BlockOf(ms, athletes, geo, i)
  {
    var all, before, rows := LeftJoin(ms, athletes, geo), LeftJoin(ms[..i], athletes, geo), JoinRow(ms[i], athletes, geo);
    JoinSnoc(ms, athletes, geo, i);
    JoinPrefix(ms, athletes, geo, i + 1);
    assert before + rows <= all;
    JoinRowShape(ms[i], athletes, geo);
    BlockRows(all, before, rows, ms[i], geo);
    assert JoinOffset(ms, athletes, geo, i) == |before|;
    assert JoinOffset(ms, athletes, geo, i + 1) == |before| + |rows|;
  }

  /**
   * The left merge keeps every medallist row, in order: the result splits into
   * consecutive non-empty blocks, the `i`-th made only of rows carrying medallist
   * `i`'s medal.
   */
  lemma JoinKeepsEveryRow(ms: seq<RawMedallist>, athletes: seq<Athlete>, geo: Lookups)
    ensures |LeftJoin(ms, athletes, geo)| >= |ms|
    ensures JoinOffset(ms, athletes, geo, 0) == 0
    ensures JoinOffset(ms, athletes, geo, |ms|) == |LeftJoin(ms, athletes, geo)|
    ensures forall i :: 0 <= i < |ms| ==> BlockOf(ms, athletes, geo, i)
  {
    JoinLength(ms, athletes, geo);
    assert ms[..|ms|] == ms;
    forall i | 0 <= i < |ms| ensures BlockOf(ms, athletes, geo, i) {
      JoinBlock(ms, athletes, geo, i);
    }
  }

  /** Merged rows `rows` correspond one for one to medallists `ms`. */
  ghost predicate RowForRow(rows: seq<Medallist>, ms: seq<RawMedallist>, athletes: seq<Athlete>, geo: Lookups)
  {
    |rows| == |ms| && forall i :: 0 <= i < |ms| ==> JoinedFrom(rows[i], ms[i], athletes, geo)
  }

  /** Row-for-row correspondence extends by one row at the end. */
  lemma RowForRowAppend(rows: seq<Medallist>, ms: seq<RawMedallist>, r: Medallist, m: RawMedallist,
                        athletes: seq<Athlete>, geo: Lookups)
    requires RowForRow(rows, ms, athletes, geo)
    requires JoinedFrom(r, m, athletes, geo)
    ensures RowForRow(rows + [r], ms + [m], athletes, geo)
  {
    var rows', ms' := rows + [r], ms + [m];
    forall i | 0 <= i < |ms'| ensures JoinedFrom(rows'[i], ms'[i], athletes, geo) {
      if i < |ms| {
        assert rows'[i] == rows[i] && ms'[i] == ms[i];
      }
    }
  }

  /**
   * With unique athlete codes the merge is row for row: the `i`-th merged row
   * is the `i`-th medallist, completed from the athlete with its code.
   */
  lemma {:induction false} JoinIsRowForRow(ms: seq<RawMedallist>, athletes: seq<Athlete>, geo: Lookups)
    requires UniqueCodes(athletes)
    ensures RowForRow(LeftJoin(ms, athletes, geo), ms, athletes, geo)
    decreases |ms|
  {
    if ms != [] {
      var init, last := ms[..|ms| - 1], ms[|ms| - 1];
      JoinIsRowForRow(init, athletes, geo);
      JoinRowUnique(last, athletes, geo);
      var head, tail := LeftJoin(init, athletes, geo), JoinRow(last, athletes, geo);
      assert tail == [tail[0]];
      assert LeftJoin(ms, athletes, geo) == head + [tail[0]];
      assert ms == init + [last];
      RowForRowAppend(head, init, tail[0], last, athletes, geo);
    }
  }

  /** The medallist file's own gender never reaches the result: rows differing only there merge alike. */
  lemma {:induction false} JoinIgnoresMedallistGender(ms: seq<RawMedallist>, ms': seq<RawMedallist>, athletes: seq<Athlete>, geo: Lookups)
    requires |ms| == |ms'|
    requires forall i :: 0 <= i < |ms| ==> ms[i].(gender := ms'[i].gender) == ms'[i]
    ensures LeftJoin(ms, athletes, geo) == LeftJoin(ms', athletes, geo)
    decreases |ms|
  {
    if ms != [] {
      var n := |ms| - 1;
      JoinIgnoresMedallistGender(ms[..n], ms'[..n], athletes, geo);
      var m, m' := ms[n], ms'[n];
      assert m.codeAthlete == m'.codeAthlete && m.country == m'.country;
      assert JoinRow(m, athletes, geo) == JoinRow(m', athletes, geo);
    }
  }

  /** The `disciplines`, `Age` and `Continent` column assignments on the athlete table. */
  method EnrichAthletes(rawAthletes: seq<RawAthlete>, today: Date, geo: Lookups) returns (athletes: seq<Athlete>)
    ensures |athletes| == |rawAthletes|
    ensures forall i :: 0 <= i < |athletes| ==> athletes[i] == EnrichAthlete(rawAthletes[i], today, geo)
  {
    athletes := [];
    var i := 0;
    while i < |rawAthletes|
      invariant 0 <= i <= |rawAthletes|
      invariant |athletes| == i
      invariant forall k :: 0 <= k < i ==> athletes[k] == EnrichAthlete(rawAthletes[k], today, geo)
    {
      athletes := athletes + [EnrichAthlete(rawAthletes[i], today, geo)];
      i := i + 1;
    }
  }

  /** The athletes whose code is `code`, found by a scan of the table. */
  method FindMatches(code: int, athletes: seq<Athlete>) returns (found: seq<Athlete>)
    ensures found == Matches(code, athletes)
  {
    found := [];
    var j := 0;
    while j < |athletes|
      invariant 0 <= j <= |athletes|
      invariant found == Matches(code, athletes[..j])
    {
      assert athletes[..j + 1] == athletes[..j] + [athletes[j]];
      if athletes[j].code == code {
        found := found + [athletes[j]];
      }
      j := j + 1;
    }
    assert athletes[..j] == athletes;
  }

  /** The left merge on `code_athlete == code`, then the medallists' own `Continent`. */
  method MergeMedallists(rawMedallists: seq<RawMedallist>, athletes: seq<Athlete>, geo: Lookups)
    returns (medallists: seq<Medallist>)
    ensures medallists == LeftJoin(rawMedallists, athletes, geo)
  {
    medallists := [];
    var i := 0;
    while i < |rawMedallists|
      invariant 0 <= i <= |rawMedallists|
      invariant medallists == LeftJoin(rawMedallists[..i], athletes, geo)
    {
      var m := rawMedallists[i];
      var found := FindMatches(m.codeAthlete, athletes);
      var rows: seq<Medallist>;
      if found == [] {
        rows := [MergedRow(m, None, geo)];
      } else {
        rows := seq(|found|, k requires 0 <= k < |found| => MergedRow(m, Some(found[k]), geo));
      }
      assert rows == JoinRow(m, athletes, geo);
      JoinSnoc(rawMedallists, athletes, geo, i);
      medallists := medallists + rows;
      i := i + 1;
    }
    assert rawMedallists[..i] == rawMedallists;
  }

  /**
   * `load_data` without the file reading: the enriched athlete table and the
   * merged medallist table.
   */
  method LoadData(rawAthletes: seq<RawAthlete>, rawMedallists: seq<RawMedallist>, today: Date, geo: Lookups)
    returns (athletes: seq<Athlete>, medallists: seq<Medallist>)
    ensures |athletes| == |rawAthletes|
    ensures forall i :: 0 <= i < |athletes| ==>
      && athletes[i].code == rawAthletes[i].code
      && athletes[i].name == rawAthletes[i].name
      && athletes[i].country == rawAthletes[i].country
      && athletes[i].gender == rawAthletes[i].gender
      && athletes[i].birthDate == rawAthletes[i].birthDate
      && athletes[i].disciplines == CleanDisciplines(rawAthletes[i].disciplines)
      && athletes[i].age == CalculateAge(rawAthletes[i].birthDate, today)
      && athletes[i].continent == GetContinent(geo, rawAthletes[i].country)
    ensures medallists == LeftJoin(rawMedallists, athletes, geo)
  {
    athletes := EnrichAthletes(rawAthletes, today, geo);
    medallists := MergeMedallists(rawMedallists, athletes, geo);
  }
}
