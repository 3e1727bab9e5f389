/**
 * The list editing of components/WorkPatternModal.tsx: a working copy of
 * the saved work patterns, and the one pattern being edited, if any.
 * Patterns are deleted by id, and a saved edit replaces the first pattern
 * with its id or is appended when there is none.
 */
module WorkPatterns {
  import opened Wrappers
  import opened TimeParse
  import opened SeqFacts

  /** A named shift: start and end as "HH:MM" text, and the break length
      in hours. */
  datatype WorkPattern = WorkPattern(id: string, name: string, startTime: string, endTime: string, breakTimeHours: real)

  /** No two patterns share an id. */
  predicate UniqueIds(ps: seq<WorkPattern>) {
    forall i, j :: 0 <= i < j < |ps| ==> ps[i].id != ps[j].id
  }

  /** The pattern `handleAddNew` starts from; the fresh id is a parameter. */
  function NewPattern(id: string): (p: WorkPattern)
    ensures p.id == id && p.name == "" && p.breakTimeHours == 1.0
    ensures p.startTime == FormatClock(9, 0) && p.endTime == FormatClock(18, 0)
  {
    WorkPattern(id, "", "09:00", "18:00", 1.0)
  }

  /** The default shift runs from 9:00 to 18:00. */
  lemma NewPatternHours(id: string)
    ensures ParseTime(NewPattern(id).startTime) == Some(9.0)
    ensures ParseTime(NewPattern(id).endTime) == Some(18.0)
  {
    ParseFormatted(9, 0);
    ParseFormatted(18, 0);
  }

  // ---------------------------------------------------------------------
  // Delete

  /** `filter(p => p.id !== id)`. */
  function WithoutId(ps: seq<WorkPattern>, id: string): (r: seq<WorkPattern>)
    ensures |r| <= |ps|
    ensures forall p :: p in r <==> p in ps && p.id != id
  {
    if ps == [] then []
    else (if ps[0].id == id then [] else [ps[0]]) + WithoutId(ps[1..], id)
  }

  /** Deleting keeps the order of what is left. */
  lemma {:induction false} WithoutIdConcat(a: seq<WorkPattern>, b: seq<WorkPattern>, id: string)
    ensures WithoutId(a + b, id) == WithoutId(a, id) + WithoutId(b, id)
  {
    if a == [] {
      assert a + b == b;
    } else {
      var head := if a[0].id == id then [] else [a[0]];
      assert WithoutId(a + b, id) == head + WithoutId(a[1..] + b, id) by {
        assert (a + b)[0] == a[0] && (a + b)[1..] == a[1..] + b;
      }
      assert WithoutId(a[1..] + b, id) == WithoutId(a[1..], id) + WithoutId(b, id) by {
        WithoutIdConcat(a[1..], b, id);
      }
      assert WithoutId(a, id) == head + WithoutId(a[1..], id);
      Assoc(head, WithoutId(a[1..], id), WithoutId(b, id));
    }
  }

  /** Deleting an id no pattern has changes nothing. */
  lemma {:induction false} WithoutAbsentId(ps: seq<WorkPattern>, id: string)
    requires forall i :: 0 <= i < |ps| ==> ps[i].id != id
    ensures WithoutId(ps, id) == ps
  {
    if ps != [] {
      WithoutAbsentId(ps[1..], id);
    }
  }

  /** A sub-sequence of a list with unique ids has unique ids. */
  lemma {:induction false} WithoutIdUnique(ps: seq<WorkPattern>, id: string)
    requires UniqueIds(ps)
    ensures UniqueIds(WithoutId(ps, id))
  {
    if ps != [] {
      WithoutIdUnique(ps[1..], id);
      var rest := WithoutId(ps[1..], id);
      forall q | q in rest ensures q.id != ps[0].id {
        var j :| 0 <= j < |ps[1..]| && ps[1..][j] == q;
        assert ps[j + 1] == q;
      }
    }
  }

  /** With unique ids, deleting the id of the pattern at `k` removes just
      that position. */
  lemma DeleteUniqueAt(ps: seq<WorkPattern>, k: nat)
    requires UniqueIds(ps) && k < |ps|
    ensures WithoutId(ps, ps[k].id) == ps[..k] + ps[k + 1..]
  {
    var x, pre, post := ps[k], ps[..k], ps[k + 1..];
    var id := x.id;
    SplitAt(ps, k);
    assert WithoutId(pre, id) == pre by {
      forall i | 0 <= i < |pre| ensures pre[i].id != id {
        assert pre[i] == ps[i];
      }
      WithoutAbsentId(pre, id);
    }
    assert WithoutId(post, id) == post by {
      forall i | 0 <= i < |post| ensures post[i].id != id {
        assert post[i] == ps[k + 1 + i];
      }
      WithoutAbsentId(post, id);
    }
    assert WithoutId([x], id) == [] by {
      assert [x][1..] == [];
    }
    assert WithoutId(pre + [x], id) == pre by {
      WithoutIdConcat(pre, [x], id);
      AppendEmpty(pre);
    }
    WithoutIdConcat(pre + [x], post, id);
  }

  // ---------------------------------------------------------------------
  // Save

  /** `findIndex(p => p.id === id)`: the first position with the id, or -1. */
  function FindIndexById(ps: seq<WorkPattern>, id: string): (r: int)
    ensures -1 <= r < |ps|
    ensures r == -1 <==> forall i :: 0 <= i < |ps| ==> ps[i].id != id
    ensures r >= 0 ==> ps[r].id == id && forall i :: 0 <= i < r ==> ps[i].id != id
  {
    if ps == [] then -1
    else if ps[0].id == id then 0
    else
      var k := FindIndexById(ps[1..], id);
      assert forall i :: 1 <= i < |ps| ==> ps[i] == ps[1..][i - 1];
      if k == -1 then -1 else k + 1
  }

  /** What saving the edited pattern `p` does to the list: a pattern whose
      id is absent is appended after the others, one whose id is present
      takes a place in the list, which keeps its length. */
  function Upsert(ps: seq<WorkPattern>, p: WorkPattern): (r: seq<WorkPattern>)
    ensures (forall i :: 0 <= i < |ps| ==> ps[i].id != p.id) ==> r == ps + [p]
    ensures (exists i :: 0 <= i < |ps| && ps[i].id == p.id) ==> |r| == |ps|
    ensures p in r
  {
    var k := FindIndexById(ps, p.id);
    if k > -1 then assert ps[k := p][k] == p; ps[k := p]
    else assert (ps + [p])[|ps|] == p; ps + [p]
  }

  /** A pattern whose id is present replaces the first pattern with that id;
      the length and every other position stay. */
  lemma UpsertExisting(ps: seq<WorkPattern>, p: WorkPattern, k: nat)
    requires k < |ps| && ps[k].id == p.id && forall i :: 0 <= i < k ==> ps[i].id != p.id
    ensures |Upsert(ps, p)| == |ps| && Upsert(ps, p)[k] == p
    ensures forall i :: 0 <= i < |ps| && i != k ==> Upsert(ps, p)[i] == ps[i]
  {
    assert FindIndexById(ps, p.id) == k;
  }

  /** Either way the saved pattern is in the list, and it is the first one
      with its id. */
  lemma UpsertFound(ps: seq<WorkPattern>, p: WorkPattern)
    ensures FindIndexById(Upsert(ps, p), p.id) >= 0
    ensures Upsert(ps, p)[FindIndexById(Upsert(ps, p), p.id)] == p
  {
    var r, k := Upsert(ps, p), FindIndexById(ps, p.id);
    if k > -1 {
      assert r[k] == p;
      forall i | 0 <= i < k ensures r[i].id != p.id {
        assert r[i] == ps[i];
      }
    } else {
      assert r[|ps|] == p;
      forall i | 0 <= i < |ps| ensures r[i].id != p.id {
        assert r[i] == ps[i];
      }
    }
  }

  /** Saving keeps ids unique. */
  lemma UpsertUnique(ps: seq<WorkPattern>, p: WorkPattern)
    requires UniqueIds(ps)
    ensures UniqueIds(Upsert(ps, p))
  {
    var r, k := Upsert(ps, p), FindIndexById(ps, p.id);
    if k > -1 {
      forall i, j | 0 <= i < j < |r| ensures r[i].id != r[j].id {
        if i == k {
          assert r[i].id == ps[k].id && r[j] == ps[j];
        } else if j == k {
          assert r[j].id == ps[k].id && r[i] == ps[i];
        } else {
          assert r[i] == ps[i] && r[j] == ps[j];
        }
      }
    } else {
      forall i, j | 0 <= i < j < |r| ensures r[i].id != r[j].id {
        assert r[i] == ps[i];
        if j < |ps| {
          assert r[j] == ps[j];
        }
      }
    }
  }

  // ---------------------------------------------------------------------
  // The editor's state

  /** The modal's two pieces of state: the working list and the pattern in
      the edit form. */
  class PatternEditor {
    var localPatterns: seq<WorkPattern>
    var editingPattern: Option<WorkPattern>

    /** Opening the modal copies the saved patterns; nothing is being
        edited. */
    constructor(patterns: seq<WorkPattern>)
      ensures localPatterns == patterns && editingPattern == None
    {
      localPatterns := patterns;
      editingPattern := None;
    }

    /** `handleAddNew`: start editing a fresh pattern with the defaults. */
    method AddNew(freshId: string)
      modifies this
      ensures editingPattern == Some(NewPattern(freshId))
      ensures localPatterns == old(localPatterns)
    {
      editingPattern := Some(NewPattern(freshId));
    }

    /** `handleEdit`: start editing a copy of `p`. */
    method Edit(p: WorkPattern)
      modifies this
      ensures editingPattern == Some(p)
      ensures localPatterns == old(localPatterns)
    {
      editingPattern := Some(p);
    }

    /** `handleDelete`: drop every pattern with the id. */
    method Delete(id: string)
      modifies this
      ensures localPatterns == WithoutId(old(localPatterns), id)
      ensures editingPattern == old(editingPattern)
      ensures UniqueIds(old(localPatterns)) ==> UniqueIds(localPatterns)
    {
      localPatterns := WithoutId(localPatterns, id);
      if UniqueIds(old(localPatterns)) {
        WithoutIdUnique(old(localPatterns), id);
      }
    }

    /** `handleSaveEditing`: with nothing being edited, nothing happens;
        otherwise the edited pattern replaces the first one with its id, or
        is appended, and the form is cleared. */
    method SaveEditing()
      modifies this
      ensures old(editingPattern).None? ==> localPatterns == old(localPatterns) && editingPattern == None
      ensures old(editingPattern).Some? ==> localPatterns == Upsert(old(localPatterns), old(editingPattern).value)
      ensures editingPattern == None
      ensures UniqueIds(old(localPatterns)) ==> UniqueIds(localPatterns)
      ensures old(editingPattern).Some? ==> old(editingPattern).value in localPatterns
    {
      if editingPattern.None? {
        return;
      }
      var edited := editingPattern.value;
      var existingIndex := FindIndexById(localPatterns, edited.id);
      if existingIndex > -1 {
        var updated := localPatterns;
        updated := updated[existingIndex := edited];
        localPatterns := updated;
      } else {
        localPatterns := localPatterns + [edited];
      }
      editingPattern := None;
      UpsertFound(old(localPatterns), edited);
      if UniqueIds(old(localPatterns)) {
        UpsertUnique(old(localPatterns), edited);
      }
    }

    /** `handleFinalSave`: the working list handed back to the caller. */
    method FinalSave() returns (saved: seq<WorkPattern>)
      ensures saved == localPatterns
    {
      saved := localPatterns;
    }
  }
}
