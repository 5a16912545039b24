/**
 * The global-uniqueness migration of src/database/migrate_unique_characters.js:
 * find the `character_id`s owned more than once, delete every row of each
 * such id but the earliest claimed, then put a unique constraint on
 * `character_id`. The `user_characters` table is a sequence of rows in
 * table order.
 */
module UniqueCharacters {

  /** A `user_characters` row, reduced to the columns the migration reads. */
  datatype OwnershipRow = OwnershipRow(id: int, userId: int, characterId: int, claimedAt: int)

  type Rows = seq<OwnershipRow>

  /** `id SERIAL PRIMARY KEY`: no two rows share an id. */
  predicate UniqueRowIds(rows: Rows) {
    forall i, j :: 0 <= i < j < |rows| ==> rows[i].id != rows[j].id
  }

  /** What `UNIQUE (character_id)` demands: no character is owned twice. */
  predicate UniqueCharacterIds(rows: Rows) {
    forall i, j :: 0 <= i < j < |rows| ==> rows[i].characterId != rows[j].characterId
  }

  function CharacterIds(rows: Rows): set<int> {
    set x | x in rows :: x.characterId
  }

  /** The rows of one character, in table order (`WHERE character_id = c`). */
  function RowsOf(rows: Rows, c: int): (rs: Rows)
    ensures |rs| <= |rows|
    ensures forall x :: x in rs <==> x in rows && x.characterId == c
  {
    if rows == [] then []
    else (if rows[0].characterId == c then [rows[0]] else []) + RowsOf(rows[1..], c)
  }

  /**
   * `ORDER BY claimed_at ASC LIMIT 1`: a row with the smallest claim time.
   * PostgreSQL leaves the choice among equal times open; here it is the
   * first such row in table order.
   */
  function EarliestOf(rs: Rows): (e: OwnershipRow)
    requires |rs| > 0
    ensures e in rs
    ensures forall x :: x in rs ==> e.claimedAt <= x.claimedAt
  {
    if |rs| == 1 then rs[0]
    else
      var rest := EarliestOf(rs[1..]);
      if rs[0].claimedAt <= rest.claimedAt then rs[0] else rest
  }

  /**
   * Whether `x` survives the DELETE statements for the ids in `done`, run
   * against the table `orig`: a row of an id in `done` stays only if its id
   * is the one the `LIMIT 1` subquery picks (`id NOT IN (…)`).
   */
  predicate Survives(orig: Rows, done: set<int>, x: OwnershipRow) {
    x.characterId !in done
    || (var rs := RowsOf(orig, x.characterId); |rs| > 0 && x.id == EarliestOf(rs).id)
  }

  /** The rows of `rs` that survive, in order. */
  function Prune(orig: Rows, rs: Rows, done: set<int>): (kept: Rows)
    ensures |kept| <= |rs|
  {
    if rs == [] then []
    else (if Survives(orig, done, rs[0]) then [rs[0]] else []) + Prune(orig, rs[1..], done)
  }

  /** One DELETE of the cleanup loop, for character `c`, on the current table. */
  function DeleteDuplicatesOf(table: Rows, c: int): (kept: Rows)
    // Rows of other characters stay; of `c`'s rows only the earliest claimed one does.
    ensures forall x :: x in kept <==>
      x in table && (x.characterId == c ==> x.id == EarliestOf(RowsOf(table, c)).id)
    ensures multiset(kept) <= multiset(table)
  {
    PruneMembers(table, table, {c});
    PruneSubMultiset(table, table, {c});
    Prune(table, table, {c})
  }

  /** `GROUP BY character_id HAVING COUNT(*) > 1`: the ids with more than one row. */
  function DuplicateIds(rows: Rows): (ids: set<int>)
    ensures forall c :: c in ids ==> c in CharacterIds(rows) && |RowsOf(rows, c)| > 1
  {
    set x | x in rows && |RowsOf(rows, x.characterId)| > 1 :: x.characterId
  }

  /** The duplicate query reports exactly the ids that two different rows carry. */
  lemma {:induction false} DuplicateIdsExactly(rows: Rows, c: int)
    ensures c in DuplicateIds(rows) <==>
      exists i, j :: 0 <= i < j < |rows| && rows[i].characterId == c && rows[j].characterId == c
  {
    TwoRowsIff(rows, c);
    if |RowsOf(rows, c)| > 1 {
      var x := RowsOf(rows, c)[0];
      assert x in RowsOf(rows, c);
    }
  }

  /** The query's rows: each duplicated id with its `COUNT(*)`. */
  function DuplicateCounts(rows: Rows): (counts: map<int, nat>)
    ensures counts.Keys == DuplicateIds(rows)
    ensures forall c :: c in counts ==> counts[c] >= 2 && counts[c] == |RowsOf(rows, c)|
  {
    map c | c in DuplicateIds(rows) :: |RowsOf(rows, c)|
  }

  /** The cleaned table: the reference result of the whole cleanup loop. */
  function Dedupe(rows: Rows): Rows {
    Prune(rows, rows, DuplicateIds(rows))
  }

  // ----- Lemmas about counting -----

  lemma {:induction false} TwoRowsIff(rows: Rows, c: int)
    ensures |RowsOf(rows, c)| > 1 <==>
      exists i, j :: 0 <= i < j < |rows| && rows[i].characterId == c && rows[j].characterId == c
  {
    if |RowsOf(rows, c)| > 1 {
      var i, j := TwoRowsFromCount(rows, c);
    }
    if exists i, j :: 0 <= i < j < |rows| && rows[i].characterId == c && rows[j].characterId == c {
      var i, j :| 0 <= i < j < |rows| && rows[i].characterId == c && rows[j].characterId == c;
      CountFromTwoRows(rows, c, i, j);
    }
  }

  lemma {:induction false} CountFromTwoRows(rows: Rows, c: int, i: int, j: int)
    requires 0 <= i < j < |rows| && rows[i].characterId == c && rows[j].characterId == c
    ensures |RowsOf(rows, c)| > 1
  {
    assert rows == rows[..j] + rows[j..];
    RowsOfAppend(rows[..j], rows[j..], c);
    assert rows[i] in RowsOf(rows[..j], c);
    assert rows[j] in RowsOf(rows[j..], c);
  }

  lemma {:induction false} TwoRowsFromCount(rows: Rows, c: int) returns (i: int, j: int)
    requires |RowsOf(rows, c)| > 1
    ensures 0 <= i < j < |rows| && rows[i].characterId == c && rows[j].characterId == c
  {
    var t := rows[1..];
    if rows[0].characterId == c {
      var y := RowsOf(t, c)[0];
      assert y in RowsOf(t, c);
      var k :| 0 <= k < |t| && t[k] == y;
      i, j := 0, k + 1;
    } else {
      var i', j' := TwoRowsFromCount(t, c);
      i, j := i' + 1, j' + 1;
    }
  }

  /** No id is carried twice exactly when each id has at most one row. */
  lemma {:induction false} AtMostOneRowEach(rows: Rows)
    requires forall c :: |RowsOf(rows, c)| <= 1
    ensures UniqueCharacterIds(rows)
    ensures DuplicateIds(rows) == {}
  {
    forall i, j | 0 <= i < j < |rows|
      ensures rows[i].characterId != rows[j].characterId
    {
      TwoRowsIff(rows, rows[i].characterId);
    }
  }

  // ----- Lemmas about Prune -----

  /** The rows kept are exactly the surviving rows of the input. */
  lemma {:induction false} PruneMembers(orig: Rows, rs: Rows, done: set<int>)
    ensures forall x :: x in Prune(orig, rs, done) <==> x in rs && Survives(orig, done, x)
  {
    if rs != [] {
      PruneMembers(orig, rs[1..], done);
      assert rs == [rs[0]] + rs[1..];
    }
  }

  lemma {:induction false} PruneNothing(orig: Rows, rs: Rows)
    ensures Prune(orig, rs, {}) == rs
  {
    if rs != [] {
      PruneNothing(orig, rs[1..]);
      assert rs == [rs[0]] + rs[1..];
    }
  }

  /** Pruning only deletes: the result is a sub-multiset of the input. */
  lemma {:induction false} PruneSubMultiset(orig: Rows, rs: Rows, done: set<int>)
    ensures multiset(Prune(orig, rs, done)) <= multiset(rs)
  {
    if rs != [] {
      PruneSubMultiset(orig, rs[1..], done);
      assert rs == [rs[0]] + rs[1..];
    }
  }

  /** Selecting one character's rows commutes with pruning. */
  lemma {:induction false} RowsOfPrune(orig: Rows, rs: Rows, done: set<int>, c: int)
    ensures RowsOf(Prune(orig, rs, done), c) == Prune(orig, RowsOf(rs, c), done)
  {
    if rs != [] {
      RowsOfPrune(orig, rs[1..], done, c);
      var h := if Survives(orig, done, rs[0]) then [rs[0]] else [];
      RowsOfAppend(h, Prune(orig, rs[1..], done), c);
      var g := if rs[0].characterId == c then [rs[0]] else [];
      PruneAppend(orig, g, RowsOf(rs[1..], c), done);
    }
  }

  lemma {:induction false} RowsOfAppend(a: Rows, b: Rows, c: int)
    ensures RowsOf(a + b, c) == RowsOf(a, c) + RowsOf(b, c)
  {
    if a != [] {
      assert (a + b)[1..] == a[1..] + b;
      RowsOfAppend(a[1..], b, c);
    } else {
      assert a + b == b;
    }
  }

  lemma {:induction false} PruneAppend(orig: Rows, a: Rows, b: Rows, done: set<int>)
    ensures Prune(orig, a + b, done) == Prune(orig, a, done) + Prune(orig, b, done)
  {
    if a == [] {
      assert a + b == b;
    } else {
      var ab := a + b;
      assert ab[0] == a[0] && ab[1..] == a[1..] + b;
      PruneAppend(orig, a[1..], b, done);
      var h := if Survives(orig, done, a[0]) then [a[0]] else [];
      assert Prune(orig, ab, done) == h + Prune(orig, a[1..] + b, done);
      assert Prune(orig, a, done) == h + Prune(orig, a[1..], done);
    }
  }

  /** The rows of a character not yet cleaned are all still there, in order. */
  lemma {:induction false} PruneKeepsOthers(orig: Rows, rs: Rows, done: set<int>, c: int)
    requires c !in done
    ensures RowsOf(Prune(orig, rs, done), c) == RowsOf(rs, c)
  {
    if rs != [] {
      PruneKeepsOthers(orig, rs[1..], done, c);
      assert Survives(orig, done, rs[0]) || rs[0].characterId != c;
      var h := if Survives(orig, done, rs[0]) then [rs[0]] else [];
      RowsOfAppend(h, Prune(orig, rs[1..], done), c);
    }
  }

  /** Pruning in two rounds is pruning once for both sets of ids. */
  lemma {:induction false} PruneCompose(orig: Rows, rs: Rows, d1: set<int>, d2: set<int>)
    ensures Prune(orig, Prune(orig, rs, d1), d2) == Prune(orig, rs, d1 + d2)
  {
    if rs != [] {
      PruneCompose(orig, rs[1..], d1, d2);
      var h := if Survives(orig, d1, rs[0]) then [rs[0]] else [];
      PruneAppend(orig, h, Prune(orig, rs[1..], d1), d2);
    }
  }

  /** Survival depends on the table only through the cleaned ids' rows. */
  lemma {:induction false} PruneCongruent(o1: Rows, o2: Rows, rs: Rows, done: set<int>)
    requires forall c :: c in done ==> RowsOf(o1, c) == RowsOf(o2, c)
    ensures Prune(o1, rs, done) == Prune(o2, rs, done)
  {
    if rs != [] {
      PruneCongruent(o1, o2, rs[1..], done);
      assert Survives(o1, done, rs[0]) == Survives(o2, done, rs[0]);
    }
  }

  /**
   * One loop iteration: deleting the duplicates of a further id `c` from
   * the partly cleaned table is the same as cleaning `done + {c}` at once.
   * This is why the order of the query's rows does not matter.
   */
  lemma {:induction false} CleanupStep(rows: Rows, done: set<int>, c: int)
    requires c !in done
    ensures DeleteDuplicatesOf(Prune(rows, rows, done), c) == Prune(rows, rows, done + {c})
  {
    var table := Prune(rows, rows, done);
    PruneKeepsOthers(rows, rows, done, c);
    PruneCongruent(table, rows, table, {c});
    PruneCompose(rows, rows, done, {c});
  }

  // ----- The cleanup loop -----

  /** `order` lists each id of `ids` exactly once. */
  predicate ListsEachOnce(order: seq<int>, ids: set<int>) {
    && (forall i, j :: 0 <= i < j < |order| ==> order[i] != order[j])
    && (set c | c in order) == ids
  }

  /**
   * The cleanup: query the duplicated ids with their counts, then run one
   * DELETE per id, in `queryOrder`, the order in which the query happened
   * to return them (SQL fixes none).
   */
  method RemoveDuplicates(rows: Rows, queryOrder: seq<int>) returns (duplicates: map<int, nat>, cleaned: Rows)
    requires ListsEachOnce(queryOrder, DuplicateIds(rows))
    ensures duplicates.Keys == DuplicateIds(rows)
    ensures cleaned == Dedupe(rows)
    ensures duplicates == map[] ==> cleaned == rows
  {
    duplicates := DuplicateCounts(rows);
    cleaned := rows;
    if duplicates != map[] {
      cleaned := CleanEach(rows, queryOrder);
    } else {
      assert DuplicateIds(rows) == {};
      PruneNothing(rows, rows);
    }
  }

  /** The ids among the first `n` of `order`: those the loop has cleaned so far. */
  function Seen(order: seq<int>, n: nat): set<int>
    requires n <= |order|
  {
    set c | c in order[..n]
  }

  /** Cleaning the `n`-th id of `order` extends the cleaned prefix by one. */
  lemma {:induction false} CleanNext(rows: Rows, order: seq<int>, n: nat)
    requires forall i, j :: 0 <= i < j < |order| ==> order[i] != order[j]
    requires n < |order|
    ensures DeleteDuplicatesOf(Prune(rows, rows, Seen(order, n)), order[n]) == Prune(rows, rows, Seen(order, n + 1))
  {
    assert order[..n + 1] == order[..n] + [order[n]];
    assert Seen(order, n + 1) == Seen(order, n) + {order[n]};
    CleanupStep(rows, Seen(order, n), order[n]);
  }

  /** The `for … of` DELETE loop over the ids in `order`. */
  method CleanEach(rows: Rows, order: seq<int>) returns (cleaned: Rows)
    requires forall i, j :: 0 <= i < j < |order| ==> order[i] != order[j]
    ensures cleaned == Prune(rows, rows, set c | c in order)
  {
    cleaned := rows;
    assert Seen(order, 0) == {};
    PruneNothing(rows, rows);
    for n := 0 to |order|
      invariant cleaned == Prune(rows, rows, Seen(order, n))
    {
      CleanNext(rows, order, n);
      cleaned := DeleteDuplicatesOf(cleaned, order[n]);
    }
    assert order[..|order|] == order;
  }

  // ----- Properties of the cleaned table -----

  lemma UniqueIdsTail(rows: Rows)
    requires |rows| > 0 && UniqueRowIds(rows)
    ensures UniqueRowIds(rows[1..])
    ensures forall x :: x in rows[1..] ==> x.id != rows[0].id
  {
  }

  /**
   * Among rows with distinct ids, keeping just the rows whose id is that of
   * `e` (one of them) leaves `e` alone.
   */
  lemma {:induction false} PruneToOne(rows: Rows, rs: Rows, dups: set<int>, c: int)
    requires c in dups && |RowsOf(rows, c)| > 0
    requires UniqueRowIds(rs)
    requires forall x :: x in rs ==> x.characterId == c
    ensures EarliestOf(RowsOf(rows, c)) in rs ==> Prune(rows, rs, dups) == [EarliestOf(RowsOf(rows, c))]
    ensures EarliestOf(RowsOf(rows, c)) !in rs && (forall x :: x in rs ==> x.id != EarliestOf(RowsOf(rows, c)).id)
      ==> Prune(rows, rs, dups) == []
  {
    if rs != [] {
      UniqueIdsTail(rs);
      PruneToOne(rows, rs[1..], dups, c);
    }
  }

  lemma {:induction false} RowsOfUniqueIds(rows: Rows, c: int)
    requires UniqueRowIds(rows)
    ensures UniqueRowIds(RowsOf(rows, c))
  {
    if rows != [] {
      UniqueIdsTail(rows);
      RowsOfUniqueIds(rows[1..], c);
      var t := RowsOf(rows[1..], c);
      if rows[0].characterId == c {
        var s := [rows[0]] + t;
        forall i, j | 0 <= i < j < |s| ensures s[i].id != s[j].id {
          if i == 0 {
            assert s[j] == t[j - 1] && s[j] in rows[1..];
          } else {
            assert s[i] == t[i - 1] && s[j] == t[j - 1];
          }
        }
      } else {
        assert RowsOf(rows, c) == t;
      }
    }
  }

  /** An id that was not duplicated keeps all of its rows, in order. */
  lemma {:induction false} UnduplicatedRowsKept(rows: Rows, c: int)
    requires c !in DuplicateIds(rows)
    ensures RowsOf(Dedupe(rows), c) == RowsOf(rows, c)
  {
    PruneKeepsOthers(rows, rows, DuplicateIds(rows), c);
  }

  /** A duplicated id keeps only its earliest-claimed row. */
  lemma {:induction false} DuplicatedRowsCut(rows: Rows, c: int)
    requires UniqueRowIds(rows)
    requires c in DuplicateIds(rows)
    ensures RowsOf(Dedupe(rows), c) == [EarliestOf(RowsOf(rows, c))]
  {
    var dups := DuplicateIds(rows);
    TwoRowsIff(rows, c);
    RowsOfPrune(rows, rows, dups, c);
    RowsOfUniqueIds(rows, c);
    PruneToOne(rows, RowsOf(rows, c), dups, c);
  }

  /** After the cleanup no character is owned twice, so the constraint can be added. */
  lemma {:induction false} CleanedIsUnique(rows: Rows)
    requires UniqueRowIds(rows)
    ensures UniqueCharacterIds(Dedupe(rows))
    ensures DuplicateIds(Dedupe(rows)) == {}
  {
    var dups := DuplicateIds(rows);
    forall c ensures |RowsOf(Dedupe(rows), c)| <= 1 {
      if c in dups {
        DuplicatedRowsCut(rows, c);
      } else {
        UnduplicatedRowsKept(rows, c);
        TwoRowsIff(rows, c);
      }
    }
    AtMostOneRowEach(Dedupe(rows));
  }

  /** For each duplicated id the survivor has the minimal `claimed_at` of that id's rows. */
  lemma {:induction false} SurvivorIsEarliest(rows: Rows, c: int)
    requires UniqueRowIds(rows)
    requires c in DuplicateIds(rows)
    ensures exists e :: RowsOf(Dedupe(rows), c) == [e]
    ensures forall e, x :: e in Dedupe(rows) && e.characterId == c && x in rows && x.characterId == c ==>
      e.claimedAt <= x.claimedAt
  {
    DuplicatedRowsCut(rows, c);
    forall e', x | e' in Dedupe(rows) && e'.characterId == c && x in rows && x.characterId == c
      ensures e'.claimedAt <= x.claimedAt
    {
      assert e' in RowsOf(Dedupe(rows), c);
      assert x in RowsOf(rows, c);
    }
  }

  /** No character loses all of its rows. */
  lemma {:induction false} CleanupKeepsEveryCharacter(rows: Rows)
    requires UniqueRowIds(rows)
    ensures CharacterIds(Dedupe(rows)) == CharacterIds(rows)
  {
    forall c ensures c in CharacterIds(Dedupe(rows)) <==> c in CharacterIds(rows) {
      if c in DuplicateIds(rows) {
        DuplicatedRowsCut(rows, c);
      } else {
        UnduplicatedRowsKept(rows, c);
      }
      if c in CharacterIds(rows) {
        var x :| x in rows && x.characterId == c;
        assert x in RowsOf(rows, c);
        var y := RowsOf(Dedupe(rows), c)[0];
        assert y in RowsOf(Dedupe(rows), c);
      }
      if c in CharacterIds(Dedupe(rows)) {
        var x :| x in Dedupe(rows) && x.characterId == c;
        assert x in rows;
      }
    }
  }

  /** Rows of ids that were not duplicated are kept untouched. */
  lemma CleanupKeepsSingles(rows: Rows, x: OwnershipRow)
    requires x in rows && x.characterId !in DuplicateIds(rows)
    ensures x in Dedupe(rows)
  {
    PruneMembers(rows, rows, DuplicateIds(rows));
  }

  /** Rows are only deleted, never changed or added. */
  lemma {:induction false} CleanupOnlyDeletes(rows: Rows)
    ensures multiset(Dedupe(rows)) <= multiset(rows)
  {
    PruneSubMultiset(rows, rows, DuplicateIds(rows));
  }

  /** A table without duplicates is left as it is, so a second cleanup deletes nothing. */
  lemma {:induction false} CleanupIdempotent(rows: Rows)
    requires UniqueRowIds(rows)
    ensures DuplicateIds(rows) == {} ==> Dedupe(rows) == rows
    ensures Dedupe(Dedupe(rows)) == Dedupe(rows)
  {
    PruneNothing(rows, rows);
    CleanedIsUnique(rows);
    PruneNothing(Dedupe(rows), Dedupe(rows));
  }

  // ----- The whole migration -----

  /** The table with the names of its constraints. */
  datatype Table = Table(rows: Rows, constraints: set<string>)

  const OldConstraint: string := "user_characters_user_id_character_id_key"
  const NewConstraint: string := "user_characters_character_id_unique"

  /**
   * `migrateUniqueCharacters`: clean up, drop the old per-user constraint
   * if present, then add the global one. `dropOk` is whether the DROP
   * succeeds; its failure is caught and ignored. The statements run outside a
   * transaction, so when ADD CONSTRAINT fails (its name is already taken,
   * as on a second run) the deletions stay and `ok` is false.
   */
  method MigrateUniqueCharacters(t: Table, queryOrder: seq<int>, dropOk: bool) returns (after: Table, ok: bool)
    requires UniqueRowIds(t.rows)
    requires ListsEachOnce(queryOrder, DuplicateIds(t.rows))
    ensures after.rows == Dedupe(t.rows)
    ensures ok <==> NewConstraint !in t.constraints
    ensures dropOk && ok ==> after.constraints == t.constraints - {OldConstraint} + {NewConstraint}
    ensures dropOk && !ok ==> after.constraints == t.constraints - {OldConstraint}
    // A failing DROP is swallowed: the old constraint stays and the migration goes on.
    ensures !dropOk && ok ==> after.constraints == t.constraints + {NewConstraint}
    ensures !dropOk && !ok ==> after.constraints == t.constraints
    ensures UniqueCharacterIds(after.rows)
  {
    var _, cleaned := RemoveDuplicates(t.rows, queryOrder);
    var constraints := if dropOk then t.constraints - {OldConstraint} else t.constraints;
    CleanedIsUnique(t.rows);
    // ADD CONSTRAINT fails on a taken name or on remaining duplicates.
    ok := NewConstraint !in constraints && DuplicateIds(cleaned) == {};
    after := Table(cleaned, if ok then constraints + {NewConstraint} else constraints);
  }
}
