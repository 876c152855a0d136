/** `count_medals`: one row per awarded medal, collapsing the rows of team events. */
module Medals {
  import opened Tables

  /** The identity of an awarded medal: a team medal is shared by all its rows. */
  datatype MedalKey = MedalKey(country: string, discipline: string, event: string, medalType: string)

  function Key(r: Medallist): MedalKey
  {
    MedalKey(r.country, r.discipline, r.event, r.medalType)
  }

  /** The medals a table mentions. */
  function KeysOf(rows: seq<Medallist>): set<MedalKey>
  {
    set r | r in rows :: Key(r)
  }

  /** No medal is counted twice. */
  ghost predicate NoDuplicateKeys(rows: seq<Medallist>)
  {
    forall i, j :: 0 <= i < j < |rows| ==> Key(rows[i]) != Key(rows[j])
  }

  /** Row `i` is the first row of its medal. */
  ghost predicate IsFirstOccurrence(rows: seq<Medallist>, i: int)
    requires 0 <= i < |rows|
  {
    forall j :: 0 <= j < i ==> Key(rows[j]) != Key(rows[i])
  }

  /**
   * `drop_duplicates(subset=[country, discipline, event, medal_type])` with
   * pandas' default `keep='first'`: a left-to-right scan that keeps a row when
   * its medal is not among the `seen` ones.
   */
  function DropDuplicates(rows: seq<Medallist>, seen: set<MedalKey>): seq<Medallist>
    decreases |rows|
  {
    if rows == [] then []
    else if Key(rows[0]) in seen then DropDuplicates(rows[1..], seen)
    else [rows[0]] + DropDuplicates(rows[1..], seen + {Key(rows[0])})
  }

  /** `count_medals(df)`: an empty table is returned as it is, any other one deduplicated. */
  function CountMedals(rows: seq<Medallist>): (r: seq<Medallist>)
    ensures rows == [] ==> r == rows
  {
    if rows == [] then rows else DropDuplicates(rows, {})
  }

  /**
   * Reference definition: the rows whose medal no earlier row has, built from
   * the end of the table.
   */
  function FirstOccurrences(rows: seq<Medallist>): seq<Medallist>
    decreases |rows|
  {
    if rows == [] then []
    else
      var init, last := rows[..|rows| - 1], rows[|rows| - 1];
      FirstOccurrences(init) + if Key(last) in KeysOf(init) then [] else [last]
  }

  /** The positions `FirstOccurrences` keeps, in increasing order. */
  function FirstPositions(rows: seq<Medallist>): seq<int>
    decreases |rows|
  {
    if rows == [] then []
    else
      var init, last := rows[..|rows| - 1], rows[|rows| - 1];
      FirstPositions(init) + if Key(last) in KeysOf(init) then [] else [|rows| - 1]
  }

  /** A medal is in the keys of a prefix exactly when some row of the prefix has it. */
  lemma KeyInPrefix(rows: seq<Medallist>, n: int, k: MedalKey)
    requires 0 <= n <= |rows|
    ensures k in KeysOf(rows[..n]) <==> exists j :: 0 <= j < n && Key(rows[j]) == k
  {
  }

  /** Appending a row to the scanned input appends it to the output unless its medal was already met. */
  lemma {:induction false} DropDuplicatesAppend(rows: seq<Medallist>, x: Medallist, seen: set<MedalKey>)
    ensures DropDuplicates(rows + [x], seen) ==
      DropDuplicates(rows, seen) + if Key(x) in seen + KeysOf(rows) then [] else [x]
    decreases |rows|
  {
    if rows == [] {
      assert rows + [x] == [x];
      assert KeysOf(rows) == {};
    } else {
      var next := if Key(rows[0]) in seen then seen else seen + {Key(rows[0])};
      assert (rows + [x])[0] == rows[0] && (rows + [x])[1..] == rows[1..] + [x];
      DropDuplicatesAppend(rows[1..], x, next);
      assert rows == [rows[0]] + rows[1..];
      assert KeysOf(rows) == {Key(rows[0])} + KeysOf(rows[1..]);
      assert next + KeysOf(rows[1..]) == seen + KeysOf(rows);
    }
  }

  /** The scan and the reference definition agree. */
  lemma {:induction false} CountMedalsIsFirstOccurrences(rows: seq<Medallist>)
    ensures CountMedals(rows) == FirstOccurrences(rows)
    decreases |rows|
  {
    if rows != [] {
      var init, last := rows[..|rows| - 1], rows[|rows| - 1];
      CountMedalsIsFirstOccurrences(init);
      assert rows == init + [last];
      DropDuplicatesAppend(init, last, {});
      assert {} + KeysOf(init) == KeysOf(init);
    }
  }

  /** Deduplication loses no medal and adds none. */
  lemma {:induction false} FirstOccurrencesKeys(rows: seq<Medallist>)
    ensures KeysOf(FirstOccurrences(rows)) == KeysOf(rows)
    ensures NoDuplicateKeys(FirstOccurrences(rows))
    decreases |rows|
  {
    if rows != [] {
      var init, last := rows[..|rows| - 1], rows[|rows| - 1];
      FirstOccurrencesKeys(init);
      assert rows == init + [last];
      assert KeysOf(rows) == KeysOf(init) + {Key(last)};
      var r, prev := FirstOccurrences(rows), FirstOccurrences(init);
      if Key(last) !in KeysOf(init) {
        assert r == prev + [last];
        assert KeysOf(r) == KeysOf(prev) + {Key(last)};
        forall i, j | 0 <= i < j < |r| ensures Key(r[i]) != Key(r[j]) {
          if j == |prev| {
            assert r[i] == prev[i] && r[i] in prev;
          }
        }
      }
    }
  }

  /**
   * The kept rows are exactly the first occurrences of their medals, taken in
   * table order: `FirstPositions` lists where each kept row sits in the input,
   * increasing, and lists every first-occurrence position.
   */
  lemma {:induction false} FirstOccurrencesPositions(rows: seq<Medallist>)
    ensures |FirstPositions(rows)| == |FirstOccurrences(rows)|
    ensures forall k :: 0 <= k < |FirstPositions(rows)| ==>
      0 <= FirstPositions(rows)[k] < |rows| && FirstOccurrences(rows)[k] == rows[FirstPositions(rows)[k]]
    ensures forall k1, k2 :: 0 <= k1 < k2 < |FirstPositions(rows)| ==> FirstPositions(rows)[k1] < FirstPositions(rows)[k2]
    ensures forall i :: 0 <= i < |rows| ==> (IsFirstOccurrence(rows, i) <==> i in FirstPositions(rows))
    decreases |rows|
  {
    if rows != [] {
      var n := |rows| - 1;
      var init, last := rows[..n], rows[n];
      FirstOccurrencesPositions(init);
      KeyInPrefix(rows, n, Key(last));
      var p, q := FirstPositions(rows), FirstPositions(init);
      forall i | 0 <= i < |rows| ensures IsFirstOccurrence(rows, i) <==> i in p {
        if i < n {
          assert IsFirstOccurrence(rows, i) <==> IsFirstOccurrence(init, i);
          assert i in p <==> i in q;
        } else {
          assert i in p <==> Key(last) !in KeysOf(init);
        }
      }
    }
  }

  /** A table without repeated medals is its own deduplication. */
  lemma {:induction false} FirstOccurrencesOfDistinct(rows: seq<Medallist>)
    requires NoDuplicateKeys(rows)
    ensures FirstOccurrences(rows) == rows
    decreases |rows|
  {
    if rows != [] {
      var n := |rows| - 1;
      var init := rows[..n];
      FirstOccurrencesOfDistinct(init);
      KeyInPrefix(rows, n, Key(rows[n]));
      assert rows == init + [rows[n]];
    }
  }

  /** What `count_medals` promises: every medal once, at its first row, in table order. */
  lemma CountMedalsSpec(rows: seq<Medallist>)
    ensures KeysOf(CountMedals(rows)) == KeysOf(rows)
    ensures NoDuplicateKeys(CountMedals(rows))
    ensures forall r :: r in CountMedals(rows) ==> r in rows
    ensures |CountMedals(rows)| == |FirstPositions(rows)|
    ensures forall k :: 0 <= k < |CountMedals(rows)| ==>
      0 <= FirstPositions(rows)[k] < |rows| && CountMedals(rows)[k] == rows[FirstPositions(rows)[k]]
    ensures forall k1, k2 :: 0 <= k1 < k2 < |FirstPositions(rows)| ==> FirstPositions(rows)[k1] < FirstPositions(rows)[k2]
    ensures forall i :: 0 <= i < |rows| ==> (IsFirstOccurrence(rows, i) <==> i in FirstPositions(rows))
  {
    CountMedalsIsFirstOccurrences(rows);
    FirstOccurrencesKeys(rows);
    FirstOccurrencesPositions(rows);
  }

  /** Counting twice is counting once. */
  lemma CountMedalsIdempotent(rows: seq<Medallist>)
    ensures CountMedals(CountMedals(rows)) == CountMedals(rows)
  {
    CountMedalsIsFirstOccurrences(rows);
    CountMedalsIsFirstOccurrences(CountMedals(rows));
    FirstOccurrencesKeys(rows);
    FirstOccurrencesOfDistinct(CountMedals(rows));
  }

  /**
   * Two players of the French football team and one other medallist: the
   * team's gold is counted once, and the first player's row stands for it.
   */
  lemma TeamMedalExample(p1: Medallist, p2: Medallist, other: Medallist)
    requires Key(p1) == Key(p2) == MedalKey("FRA", "Football", "Men", "Gold Medal")
    requires Key(other) != Key(p1)
    ensures CountMedals([p1, p2, other]) == [p1, other]
  {
    var rows, k := [p1, p2, other], Key(p1);
    assert rows[1..] == [p2, other] && rows[1..][1..] == [other] && rows[1..][1..][1..] == [];
    assert DropDuplicates([other], {k}) == [other] + DropDuplicates([], {k, Key(other)});
    assert DropDuplicates([p2, other], {k}) == DropDuplicates([other], {k});
    assert {} + {k} == {k};
    assert DropDuplicates(rows, {}) == [p1] + DropDuplicates([p2, other], {k});
    assert DropDuplicates(rows, {}) == [p1, other];
  }
}
