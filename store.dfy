/** The top-level `transactions` array of app.js and the operations that
    change it: loading (app.js:12-19), submitting the form (app.js:241-289),
    deleting (app.js:303-318), clearing (app.js:444-457) and the guard of
    the export (app.js:460-464). Every change is written through to
    browser storage (app.js:293-300); a failed write leaves the stored copy
    as it was while the change in memory stays. */
module Store {
  import opened Wrappers
  import opened Seqs
  import opened Records
  import opened Submission

  /** What storage holds under the key `'transactions'`: nothing (or an
      empty string), text that does not parse, or a list of records. */
  datatype Stored = Absent | Unparseable | Blob(records: seq<Transaction>)

  /** `initData`: the parsed list, or `[]` when there is nothing stored or
      parsing throws. */
  function Loaded(st: Stored): (r: seq<Transaction>)
    ensures st.Blob? ==> r == st.records
    ensures !st.Blob? ==> r == []
  {
    match st
    case Blob(records) => records
    case _ => []
  }

  /** `t => t.id !== id` */
  function IdDiffers(id: string): Transaction -> bool
  {
    (t: Transaction) => t.id != id
  }

  /** `transactions.filter(t => t.id !== id)`. */
  function RemoveId(s: seq<Transaction>, id: string): (r: seq<Transaction>)
    ensures |r| <= |s|
    ensures !HasId(r, id)
  {
    FilterSatisfies(s, IdDiffers(id));
    Filter(s, IdDiffers(id))
  }

  class Ledger {
    var transactions: seq<Transaction>
    ghost var persisted: Stored

    constructor Load(stored: Stored)
      ensures transactions == Loaded(stored)
      ensures persisted == stored
    {
      transactions := Loaded(stored);
      persisted := stored;
    }

    /** `saveTransactions`: a failing write is caught and only reported. */
    method Save(writeFails: bool)
      modifies this
      ensures transactions == old(transactions)
      ensures persisted == if writeFails then old(persisted) else Blob(transactions)
    {
      if !writeFails {
        persisted := Blob(transactions);
      }
    }

    /** The submit handler: validate the draft; on success push the new
        record and save. `id` and `createdAt` are the values app.js draws
        from the clock and the random generator. */
    method Submit(d: Draft, id: string, createdAt: string, writeFails: bool)
      returns (r: Result<Transaction, SubmitError>)
      modifies this
      ensures r == BuildRecord(d, id, createdAt)
      ensures r.Err? ==> transactions == old(transactions) && persisted == old(persisted)
      ensures r.Ok? ==> transactions == old(transactions) + [r.value]
      ensures r.Ok? ==> persisted == if writeFails then old(persisted) else Blob(transactions)
    {
      r := BuildRecord(d, id, createdAt);
      if r.Err? {
        return;
      }
      transactions := transactions + [r.value];
      Save(writeFails);
    }

    /** `deleteTransaction`: nothing happens for an empty id or when the
        user does not confirm; otherwise every record with that id goes and
        the ledger is saved, even when no record had it. */
    method Delete(id: string, confirmed: bool, writeFails: bool)
      modifies this
      ensures id == "" || !confirmed ==>
        transactions == old(transactions) && persisted == old(persisted)
      ensures id != "" && confirmed ==> transactions == RemoveId(old(transactions), id)
      ensures id != "" && confirmed ==>
        persisted == if writeFails then old(persisted) else Blob(transactions)
    {
      if id == "" {
        return;
      }
      if confirmed {
        transactions := RemoveId(transactions, id);
        Save(writeFails);
      }
    }

    /** `clearAllData`. */
    method ClearAll(confirmed: bool, writeFails: bool)
      modifies this
      ensures !confirmed ==> transactions == old(transactions) && persisted == old(persisted)
      ensures confirmed ==> transactions == []
      ensures confirmed ==> persisted == if writeFails then old(persisted) else Blob([])
    {
      if confirmed {
        transactions := [];
        Save(writeFails);
      }
    }

    /** The guard of `exportData`: nothing to export from an empty ledger;
        otherwise the whole ledger is what gets serialised. */
    method Export() returns (r: Option<seq<Transaction>>)
      ensures r.None? <==> transactions == []
      ensures r.Some? ==> r.value == transactions
    {
      if |transactions| == 0 {
        return None;
      }
      r := Some(transactions);
    }
  }

  // ---------------------------------------------------------------------
  // What the operations keep.

  /** A record survives a delete exactly when it was there and has a
      different id. */
  lemma RemoveIdMembers(s: seq<Transaction>, id: string, t: Transaction)
    ensures t in RemoveId(s, id) <==> t in s && t.id != id
  {
    FilterMembers(s, IdDiffers(id));
    assert t in RemoveId(s, id) <==> t in multiset(RemoveId(s, id));
  }

  /** Deleting an id nobody has changes nothing. */
  lemma RemoveIdAbsent(s: seq<Transaction>, id: string)
    requires !HasId(s, id)
    ensures RemoveId(s, id) == s
  {
    FilterKeepsAll(s, IdDiffers(id));
  }

  /** Deleting keeps the order of the remaining records: the result of
      deleting from `a + b` is what survives of `a` followed by what
      survives of `b`. */
  lemma RemoveIdAppend(a: seq<Transaction>, b: seq<Transaction>, id: string)
    ensures RemoveId(a + b, id) == RemoveId(a, id) + RemoveId(b, id)
  {
    FilterAppend(a, b, IdDiffers(id));
  }

  /** With unique ids, deleting a present id removes exactly one record. */
  lemma RemoveIdOne(s: seq<Transaction>, id: string)
    requires UniqueIds(s) && HasId(s, id)
    ensures |RemoveId(s, id)| == |s| - 1
  {
    var k :| 0 <= k < |s| && s[k].id == id;
    var a, b := s[..k], s[k + 1..];
    assert s == a + [s[k]] + b;
    assert !HasId(a, id);
    assert !HasId(b, id) by {
      forall j | 0 <= j < |b|
        ensures b[j].id != id
      {
        assert b[j] == s[k + 1 + j];
      }
    }
    RemoveIdAppend(a + [s[k]], b, id);
    RemoveIdAppend(a, [s[k]], id);
    RemoveIdAbsent(a, id);
    RemoveIdAbsent(b, id);
    assert RemoveId([s[k]], id) == [] by {
      assert [s[k]][..0] == [];
    }
  }

  /** Deleting keeps amounts positive and ids unique. */
  lemma RemoveIdKeepsInvariants(s: seq<Transaction>, id: string)
    ensures AllPositive(s) ==> AllPositive(RemoveId(s, id))
    ensures UniqueIds(s) ==> UniqueIds(RemoveId(s, id))
  {
    if AllPositive(s) {
      FilterAllPositive(s, IdDiffers(id));
    }
    if UniqueIds(s) {
      FilterKeepsUniqueIds(s, IdDiffers(id));
    }
  }

  lemma {:induction false} FilterKeepsUniqueIds(s: seq<Transaction>, p: Transaction -> bool)
    requires UniqueIds(s)
    ensures UniqueIds(Filter(s, p))
  {
    if s != [] {
      var init := s[..|s| - 1];
      var x := s[|s| - 1];
      var f := Filter(init, p);
      FilterKeepsUniqueIds(init, p);
      if p(x) {
        FilterMembers(init, p);
        forall i | 0 <= i < |f|
          ensures f[i].id != x.id
        {
          assert f[i] in multiset(f);
          var j :| 0 <= j < |init| && init[j] == f[i];
        }
      }
    }
  }

  /** A successful submit keeps amounts positive, and keeps ids unique when
      the new id is fresh. */
  lemma SubmitKeepsInvariants(s: seq<Transaction>, d: Draft, id: string, createdAt: string)
    requires BuildRecord(d, id, createdAt).Ok?
    ensures AllPositive(s) ==> AllPositive(s + [BuildRecord(d, id, createdAt).value])
    ensures UniqueIds(s) && !HasId(s, id) ==> UniqueIds(s + [BuildRecord(d, id, createdAt).value])
  {
  }
}
