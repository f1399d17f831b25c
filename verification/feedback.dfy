/** The feedback inbox: messages with an expandable detail row, a
    selection for bulk deletion, a header checkbox that selects or clears
    all, and single and bulk deletion. Deletion requests are values. */
module FeedbackInbox {
  import opened Base

  datatype Feedback = Feedback(id: string, name: string, email: string, message: string)

  /** The ids of the messages, in list order (`feedbackList.map(f => f._id)`). */
  function IdsOf(list: seq<Feedback>): (r: seq<string>)
    ensures |r| == |list| && forall i :: 0 <= i < |list| ==> r[i] == list[i].id
  {
    Map(list, (f: Feedback) => f.id)
  }

  // ---------------------------------------------------------------------
  // Selection

  /** `toggleSelect`: an unselected id is appended; a selected one is
      removed, every occurrence of it. Other ids keep their places. */
  function ToggleSelect(selected: seq<string>, id: string): (r: seq<string>)
    ensures id in r <==> id !in selected
    ensures forall x :: x != id ==> (x in r <==> x in selected)
    ensures id !in selected ==> r == selected + [id]
    ensures id in selected ==> IsSubsequence(r, selected)
  {
    if id in selected then Filter(selected, (x: string) => x != id) else selected + [id]
  }

  /** Selecting and then unselecting a message restores the selection. */
  lemma ToggleSelectTwice(selected: seq<string>, id: string)
    requires id !in selected
    ensures ToggleSelect(ToggleSelect(selected, id), id) == selected
  {
    var p := (x: string) => x != id;
    FilterAppend(selected, id, p);
    FilterAllPass(selected, p);
  }

  /** The selection names distinct messages that are in the list. */
  predicate SelectionValid(selected: seq<string>, list: seq<Feedback>)
  {
    Distinct(selected) && forall i :: 0 <= i < |selected| ==> selected[i] in IdsOf(list)
  }

  /** Toggling a listed message keeps the selection valid. */
  lemma ToggleSelectKeepsValid(selected: seq<string>, list: seq<Feedback>, id: string)
    requires SelectionValid(selected, list) && id in IdsOf(list)
    ensures SelectionValid(ToggleSelect(selected, id), list)
  {
    var r := ToggleSelect(selected, id);
    if id in selected {
      forall i, j | 0 <= i < j < |r| ensures r[i] != r[j] {
        FilterDistinct(selected, (x: string) => x != id);
      }
    }
  }

  /** The header checkbox as the page draws it: checked when the selection
      is as long as the list and the list is not empty. */
  predicate HeaderCheckedAsWritten(selected: seq<string>, list: seq<Feedback>)
  {
    |selected| == |list| && |list| > 0
  }

  /** The header checkbox as intended: checked when the list is not empty
      and every message in it is selected. */
  predicate HeaderChecked(selected: seq<string>, list: seq<Feedback>)
  {
    |list| > 0 && forall i :: 0 <= i < |list| ==> list[i].id in selected
  }

  /** The header checkbox handler as written: clears the selection when it
      is as long as the list, otherwise selects every message in list order. */
  function SelectAllAsWritten(selected: seq<string>, list: seq<Feedback>): (r: seq<string>)
    ensures |selected| == |list| ==> r == []
    ensures |selected| != |list| ==> r == IdsOf(list)
  {
    if |selected| == |list| then [] else IdsOf(list)
  }

  /** The header checkbox handler as intended: clears the selection when
      every message is selected, otherwise selects every message. */
  function SelectAll(selected: seq<string>, list: seq<Feedback>): (r: seq<string>)
    ensures (forall i :: 0 <= i < |list| ==> list[i].id in selected) ==> r == []
    ensures !(forall i :: 0 <= i < |list| ==> list[i].id in selected) ==> r == IdsOf(list) && HeaderChecked(r, list)
  {
    if forall i :: 0 <= i < |list| ==> list[i].id in selected then [] else IdsOf(list)
  }

  /** While the selection is valid and message ids are distinct, the
      length comparison gives the intended answer. */
  lemma HeaderAgreesWhenValid(selected: seq<string>, list: seq<Feedback>)
    requires SelectionValid(selected, list) && Distinct(IdsOf(list))
    ensures HeaderCheckedAsWritten(selected, list) <==> HeaderChecked(selected, list)
    ensures SelectAllAsWritten(selected, list) == SelectAll(selected, list)
  {
    var ids := IdsOf(list);
    DistinctCard(selected);
    DistinctCard(ids);
    assert Elements(selected) <= Elements(ids);
    if |selected| == |list| {
      SubsetSameCard(Elements(selected), Elements(ids));
      forall i | 0 <= i < |list| ensures list[i].id in selected {
        assert ids[i] in Elements(ids);
      }
    } else {
      assert !(forall i :: 0 <= i < |list| ==> list[i].id in selected) by {
        if forall i :: 0 <= i < |list| ==> list[i].id in selected {
          assert Elements(ids) <= Elements(selected);
          SubsetCard(Elements(ids), Elements(selected));
          SubsetCard(Elements(selected), Elements(ids));
        }
      }
    }
  }

  /** Selecting all of a list with distinct ids gives a valid selection. */
  lemma SelectAllValid(list: seq<Feedback>)
    requires Distinct(IdsOf(list))
    ensures SelectionValid(IdsOf(list), list)
  {
  }

  // ---------------------------------------------------------------------
  // Deleting

  /** `deleteFeedback`: every message with the id goes, the rest keep their
      order, the dialog closes, and the id is sent for deletion. The
      selection is left as it was. */
  function DeleteFeedback(list: seq<Feedback>, id: string): (r: (seq<Feedback>, string))
    ensures forall i :: 0 <= i < |r.0| ==> r.0[i].id != id && r.0[i] in list
    ensures forall i :: 0 <= i < |list| && list[i].id != id ==> multiset(r.0)[list[i]] == multiset(list)[list[i]]
    ensures IsSubsequence(r.0, list)
    ensures r.1 == id
  {
    var p := (f: Feedback) => f.id != id;
    FilterCounts(list, p);
    (Filter(list, p), id)
  }

  /** A valid selection stays valid across a single delete exactly when the
      deleted id was not selected. */
  lemma DeleteKeepsSelectionValid(list: seq<Feedback>, selected: seq<string>, id: string)
    requires SelectionValid(selected, list)
    ensures SelectionValid(selected, DeleteFeedback(list, id).0) <==> id !in selected
  {
    var rest := DeleteFeedback(list, id).0;
    if id in selected {
      var k :| 0 <= k < |selected| && selected[k] == id;
      DeletedIdGone(list, id);
    } else {
      forall k | 0 <= k < |selected| ensures selected[k] in IdsOf(rest) {
        var j :| 0 <= j < |list| && IdsOf(list)[j] == selected[k];
        KeptIdStays(list, id, j);
      }
    }
  }

  /** No message with the deleted id remains. */
  lemma DeletedIdGone(list: seq<Feedback>, id: string)
    ensures id !in IdsOf(DeleteFeedback(list, id).0)
  {
  }

  /** The id of a message that is not deleted is still listed. */
  lemma KeptIdStays(list: seq<Feedback>, id: string, j: nat)
    requires j < |list| && list[j].id != id
    ensures list[j].id in IdsOf(DeleteFeedback(list, id).0)
  {
    var rest := DeleteFeedback(list, id).0;
    assert list[j] in multiset(rest);
    var m :| 0 <= m < |rest| && rest[m] == list[j];
    assert IdsOf(rest)[m] == list[j].id;
  }

  /** `deleteSelected`: the selected messages go, the rest keep their
      order, the selection is cleared, and the selection as it was is sent
      for deletion (an empty one sends nothing). */
  function DeleteSelected(list: seq<Feedback>, selected: seq<string>): (r: (seq<Feedback>, seq<string>, Option<seq<string>>))
    ensures forall i :: 0 <= i < |r.0| ==> r.0[i].id !in selected && r.0[i] in list
    ensures forall i :: 0 <= i < |list| && list[i].id !in selected ==> multiset(r.0)[list[i]] == multiset(list)[list[i]]
    ensures IsSubsequence(r.0, list)
    ensures r.1 == []
    ensures r.2.Some? <==> selected != []
    ensures r.2.Some? ==> r.2.value == selected
  {
    var p := (f: Feedback) => f.id !in selected;
    FilterCounts(list, p);
    (Filter(list, p), [], if selected == [] then None else Some(selected))
  }

  /** Deleting all selected messages leaves no selected message behind, and
      the cleared selection is valid for what remains. */
  lemma DeleteSelectedLeavesNoneSelected(list: seq<Feedback>, selected: seq<string>)
    ensures var r := DeleteSelected(list, selected);
      SelectionValid(r.1, r.0) && forall i :: 0 <= i < |r.0| ==> r.0[i].id !in selected
  {
  }

  /** A single delete can leave a stale id in the selection: with messages
      a, b, c, selecting a and c and then deleting c alone leaves a, b with
      a and c selected. The page then shows the header checked although b
      is not selected, and the header click clears instead of selecting all. */
  lemma StaleSelectionChecksHeader()
    ensures
      var a, b, c := Feedback("a", "", "", ""), Feedback("b", "", "", ""), Feedback("c", "", "", "");
      var selected := ToggleSelect(ToggleSelect([], "a"), "c");
      var list := DeleteFeedback([a, b, c], "c").0;
      && list == [a, b]
      && HeaderCheckedAsWritten(selected, list)
      && !HeaderChecked(selected, list)
      && SelectAllAsWritten(selected, list) == []
      && SelectAll(selected, list) == ["a", "b"]
  {
    var a, b, c := Feedback("a", "", "", ""), Feedback("b", "", "", ""), Feedback("c", "", "", "");
    SelectTwo("a", "c");
    DeleteLast(a, b, c);
    HeaderOnStaleSelection(a, b);
  }

  /** Selecting two different messages one after the other. */
  lemma SelectTwo(x: string, y: string)
    requires x != y
    ensures ToggleSelect(ToggleSelect([], x), y) == [x, y]
  {
    assert ToggleSelect([], x) == [x];
  }

  /** Two listed messages, one of them selected together with an id that is
      no longer listed. */
  lemma HeaderOnStaleSelection(a: Feedback, b: Feedback)
    requires a.id == "a" && b.id == "b"
    ensures HeaderCheckedAsWritten(["a", "c"], [a, b])
    ensures !HeaderChecked(["a", "c"], [a, b])
    ensures SelectAllAsWritten(["a", "c"], [a, b]) == []
    ensures SelectAll(["a", "c"], [a, b]) == ["a", "b"]
  {
    assert [a, b][1].id !in ["a", "c"];
    assert IdsOf([a, b]) == ["a", "b"];
  }

  /** Deleting the third of three messages with distinct ids leaves the first two. */
  lemma DeleteLast(a: Feedback, b: Feedback, c: Feedback)
    requires a.id != c.id && b.id != c.id
    ensures DeleteFeedback([a, b, c], c.id).0 == [a, b]
  {
    var p := (f: Feedback) => f.id != c.id;
    assert [c][1..] == [];
    assert Filter([c], p) == [];
    assert [b, c][1..] == [c];
    assert Filter([b, c], p) == [b];
    assert [a, b, c][1..] == [b, c];
  }
}
