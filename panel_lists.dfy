/**
 * The value-level meaning of the plot's selection state: the ordered list of
 * chart panels, each an ordered list of topic buffers, and what each of the
 * plot's operations does to it. The plot's class methods are proved against
 * these functions; the lemmas here state what those operations promise.
 */
module PanelLists {
  import opened TopicBuffers

  /** The contents of the plot: one sequence of topic buffers per chart panel, in order. */
  type Panels = seq<seq<TopicBuffer>>

  /** The `iter().any(|p| p.has_topic(name))` scan over the panels. */
  function AnyHas(panels: Panels, name: string): (r: bool)
    ensures r <==> exists i :: 0 <= i < |panels| && Contains(panels[i], name)
  {
    if panels == [] then false
    else
      assert forall i :: 0 < i < |panels| ==> panels[i] == panels[1..][i - 1];
      Contains(panels[0], name) || AnyHas(panels[1..], name)
  }

  /** Every panel after `remove_topic(name)`: each one retains the buffers not naming `name`. */
  function RemoveEverywhere(panels: Panels, name: string): Panels
  {
    seq(|panels|, i requires 0 <= i < |panels| => Retain(panels[i], name))
  }

  /**
   * `add_topic(name)`: an empty panel list is first replaced by one empty panel
   * (`add_chart`), then `name` is pushed onto the last panel.
   */
  function AddToLast(panels: Panels, name: string): Panels
  {
    var ps := if panels == [] then [[]] else panels;
    ps[..|ps| - 1] + [ps[|ps| - 1] + [TopicBuffer(name)]]
  }

  /** `toggle_topic(name)`: remove it everywhere if some panel has it, otherwise add it to the last panel. */
  function Toggle(panels: Panels, name: string): Panels
  {
    if AnyHas(panels, name) then RemoveEverywhere(panels, name) else AddToLast(panels, name)
  }

  /** Some panel has the topic exactly when some buffer of some panel names it. */
  lemma AnyHasEntry(panels: Panels, name: string)
    ensures AnyHas(panels, name) <==>
      exists i, j :: 0 <= i < |panels| && 0 <= j < |panels[i]| && panels[i][j].identifier == name
  {
  }

  /**
   * `remove_topic(name)` keeps every panel (an emptied one included), leaves
   * `name` in none of them, and leaves every other topic's presence unchanged.
   */
  lemma RemoveEverywhereSpec(panels: Panels, name: string, other: string)
    ensures |RemoveEverywhere(panels, name)| == |panels|
    ensures !AnyHas(RemoveEverywhere(panels, name), name)
    ensures other != name ==> (AnyHas(RemoveEverywhere(panels, name), other) <==> AnyHas(panels, other))
  {
    var r := RemoveEverywhere(panels, name);
    forall i | 0 <= i < |panels|
      ensures !Contains(r[i], name)
      ensures other != name ==> (Contains(r[i], other) <==> Contains(panels[i], other))
    {
      RetainMembership(panels[i], name, other);
    }
  }

  /** Removing a topic from every panel twice is the same as doing it once. */
  lemma RemoveEverywhereIdempotent(panels: Panels, name: string)
    ensures RemoveEverywhere(RemoveEverywhere(panels, name), name) == RemoveEverywhere(panels, name)
  {
    var r := RemoveEverywhere(panels, name);
    forall i | 0 <= i < |panels| ensures Retain(r[i], name) == r[i] {
      RetainIdempotent(panels[i], name);
    }
  }

  /**
   * `add_topic(name)` creates exactly one panel when there was none and
   * otherwise keeps the panel count; only the last panel changes, gaining
   * `name` at its end.
   */
  lemma AddToLastShape(panels: Panels, name: string)
    ensures |AddToLast(panels, name)| == if panels == [] then 1 else |panels|
    ensures forall i :: 0 <= i < |panels| - 1 ==> AddToLast(panels, name)[i] == panels[i]
    ensures AddToLast(panels, name)[|AddToLast(panels, name)| - 1]
         == (if panels == [] then [] else panels[|panels| - 1]) + [TopicBuffer(name)]
  {
  }

  /** After `add_topic(name)`, `name` is present and every other topic's presence is unchanged. */
  lemma AddToLastMembership(panels: Panels, name: string, other: string)
    ensures AnyHas(AddToLast(panels, name), name)
    ensures other != name ==> (AnyHas(AddToLast(panels, name), other) <==> AnyHas(panels, other))
  {
    var r := AddToLast(panels, name);
    AddToLastShape(panels, name);
    var last := |r| - 1;
    var oldLast: seq<TopicBuffer> := if panels == [] then [] else panels[|panels| - 1];
    AppendMembership(oldLast, name, other);
    assert Contains(r[last], name);
    if other != name {
      forall i | 0 <= i < |panels| ensures Contains(r[i], other) <==> Contains(panels[i], other) {
        if i < last {
          assert r[i] == panels[i];
        }
      }
      if panels == [] {
        assert !Contains(r[0], other);
      }
    }
  }

  /** `toggle_topic(name)` flips whether any panel has `name`. */
  lemma ToggleFlips(panels: Panels, name: string)
    ensures AnyHas(Toggle(panels, name), name) == !AnyHas(panels, name)
  {
    if AnyHas(panels, name) {
      RemoveEverywhereSpec(panels, name, name);
    } else {
      AddToLastMembership(panels, name, name);
    }
  }

  /** Toggling twice restores whether any panel has `name`. */
  lemma ToggleTwicePresence(panels: Panels, name: string)
    ensures AnyHas(Toggle(Toggle(panels, name), name), name) == AnyHas(panels, name)
  {
    ToggleFlips(panels, name);
    ToggleFlips(Toggle(panels, name), name);
  }

  /** `toggle_topic(name)` does not change whether any panel has a different topic. */
  lemma ToggleKeepsOthers(panels: Panels, name: string, other: string)
    requires other != name
    ensures AnyHas(Toggle(panels, name), other) <==> AnyHas(panels, other)
  {
    if AnyHas(panels, name) {
      RemoveEverywhereSpec(panels, name, other);
    } else {
      AddToLastMembership(panels, name, other);
    }
  }

  /**
   * Toggling an absent topic twice gives the panels back unchanged, except
   * that an empty panel list becomes one empty panel: the panel created by
   * the first toggle is kept, emptied, by the second.
   */
  lemma ToggleTwiceAbsent(panels: Panels, name: string)
    requires !AnyHas(panels, name)
    ensures Toggle(Toggle(panels, name), name) == if panels == [] then [[]] else panels
  {
    var added := AddToLast(panels, name);
    AddToLastShape(panels, name);
    AddToLastMembership(panels, name, name);
    assert Toggle(panels, name) == added;
    var r := RemoveEverywhere(added, name);
    var expected: Panels := if panels == [] then [[]] else panels;
    assert |r| == |expected|;
    forall i | 0 <= i < |r| ensures r[i] == expected[i] {
      if i < |r| - 1 {
        RetainAbsent(panels[i], name);
      } else {
        var oldLast := if panels == [] then [] else panels[|panels| - 1];
        RetainAbsent(oldLast, name);
        RetainAppend(oldLast, [TopicBuffer(name)], name);
        assert Retain([TopicBuffer(name)], name) == [];
      }
    }
  }

  /**
   * Starting from no panels, a first toggle creates one panel holding the
   * topic and a second toggle leaves that panel in place, empty.
   */
  lemma ToggleFromNoPanels(name: string)
    ensures Toggle([], name) == [[TopicBuffer(name)]]
    ensures Toggle(Toggle([], name), name) == [[]]
  {
    assert !AnyHas([], name);
    AddToLastShape([], name);
    assert [] + [TopicBuffer(name)] == [TopicBuffer(name)];
    ToggleTwiceAbsent([], name);
  }

  /**
   * Toggling keeps a single panel single: `add_topic` creates a panel only
   * when there is none, and `remove_topic` keeps every panel.
   */
  lemma ToggleKeepsOnePanel(panels: Panels, name: string)
    requires |panels| == 1
    ensures |Toggle(panels, name)| == 1
  {
  }

  /** Every panel is free of duplicate identifiers. */
  predicate AllDistinct(panels: Panels)
  {
    forall i :: 0 <= i < |panels| ==> Distinct(panels[i])
  }

  /**
   * `toggle_topic` keeps every panel free of duplicates: it adds `name` only
   * when no panel has it.
   */
  lemma ToggleKeepsDistinct(panels: Panels, name: string)
    requires AllDistinct(panels)
    ensures AllDistinct(Toggle(panels, name))
  {
    if AnyHas(panels, name) {
      forall i | 0 <= i < |panels| ensures Distinct(RemoveEverywhere(panels, name)[i]) {
        RetainKeepsDistinct(panels[i], name);
      }
    } else {
      var r := AddToLast(panels, name);
      AddToLastShape(panels, name);
      var oldLast: seq<TopicBuffer> := if panels == [] then [] else panels[|panels| - 1];
      AppendKeepsDistinct(oldLast, name);
      forall i | 0 <= i < |r| ensures Distinct(r[i]) {
        if i < |r| - 1 {
          assert r[i] == panels[i];
        }
      }
    }
  }
}
