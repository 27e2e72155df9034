/**
 * The plot's selection state as objects updated in place: a `ChartPanel`
 * owns the ordered list of topic buffers it displays, and `TimePlotData`
 * owns the ordered list of chart panels. Reading or writing the reactive
 * signal that wraps each list is a plain read or write of the field here.
 * Each method is proved against the value-level functions of `TopicBuffers`
 * and `PanelLists`, where the promised properties are proved.
 */
module TimePlot {
  import opened TopicBuffers
  import opened PanelLists

  /** One chart panel and the topics it displays, in the order they were added. */
  class ChartPanel {
    var topicBuffers: seq<TopicBuffer>

    /** `ChartPanel::default()`: a panel with no topics. */
    constructor ()
      ensures topicBuffers == []
    {
      topicBuffers := [];
    }

    /** `is_empty`: the panel holds no buffer, so no topic at all is present in it. */
    function IsEmpty(): (r: bool)
      reads this
      ensures r <==> topicBuffers == []
      ensures r <==> forall name :: !HasTopic(name)
    {
      assert topicBuffers != [] ==> HasTopic(topicBuffers[0].identifier);
      |topicBuffers| == 0
    }

    /** `has_topic`: some buffer of the panel names `name`. */
    function HasTopic(name: string): (r: bool)
      reads this
      ensures r <==> TopicBuffer(name) in topicBuffers
    {
      Contains(topicBuffers, name)
    }

    /** `add_topic`: pushes a buffer for `name` at the end, without any duplicate check. */
    method AddTopic(name: string)
      modifies this
      ensures topicBuffers == old(topicBuffers) + [TopicBuffer(name)]
    {
      topicBuffers := topicBuffers + [TopicBuffer(name)];
    }

    /** `remove_topic`: drops every buffer naming `name`, keeping the rest in order. */
    method RemoveTopic(name: string)
      modifies this
      ensures topicBuffers == Retain(old(topicBuffers), name)
    {
      topicBuffers := Retain(topicBuffers, name);
    }
  }

  /** The plot's selection: the chart panels, in order. */
  class TimePlotData {
    var chartPanels: seq<ChartPanel>

    /** Each panel is a separate object, so changing one leaves the others as they were. */
    ghost predicate Valid()
      reads this
    {
      forall i, j :: 0 <= i < j < |chartPanels| ==> chartPanels[i] != chartPanels[j]
    }

    /** The topics of every panel, panel by panel. */
    ghost function Contents(): Panels
      reads this, chartPanels
    {
      seq(|chartPanels|, i reads this, chartPanels requires 0 <= i < |chartPanels| => chartPanels[i].topicBuffers)
    }

    /** The application's initial state: exactly one empty panel. */
    constructor ()
      ensures Valid() && Contents() == [[]]
      ensures |chartPanels| == 1 && fresh(chartPanels[0])
    {
      var panel := new ChartPanel();
      chartPanels := [panel];
    }

    /** `add_chart`: replaces all panels with one fresh empty panel. */
    method AddChart()
      modifies this
      ensures Valid() && Contents() == [[]]
      ensures |chartPanels| == 1 && fresh(chartPanels[0])
    {
      var panel := new ChartPanel();
      chartPanels := [panel];
    }

    /** `has_topic`: some panel has `name`. */
    function HasTopic(name: string): (r: bool)
      reads this, chartPanels
      ensures r == AnyHas(Contents(), name)
    {
      assert forall i :: 0 <= i < |chartPanels| ==> Contents()[i] == chartPanels[i].topicBuffers;
      exists i :: 0 <= i < |chartPanels| && chartPanels[i].HasTopic(name)
    }

    /**
     * `add_topic`: when there is no panel, `add_chart` first; then `name` is
     * pushed onto the last panel.
     */
    method AddTopic(name: string)
      requires Valid()
      modifies this, chartPanels
      ensures Valid() && Contents() == AddToLast(old(Contents()), name)
      ensures forall i :: 0 <= i < |chartPanels| ==> chartPanels[i] in old(chartPanels) || fresh(chartPanels[i])
    {
      if |chartPanels| == 0 {
        AddChart();
      }
      ghost var before := Contents();
      if |chartPanels| > 0 {
        var last := chartPanels[|chartPanels| - 1];
        last.AddTopic(name);
      }
      assert Contents() == AddToLast(before, name);
    }

    /** `remove_topic`: removes `name` from every panel, in order, keeping every panel. */
    method RemoveTopic(name: string)
      requires Valid()
      modifies chartPanels
      ensures Valid() && Contents() == RemoveEverywhere(old(Contents()), name)
    {
      ghost var before := Contents();
      for k := 0 to |chartPanels|
        invariant forall i :: 0 <= i < k ==> chartPanels[i].topicBuffers == Retain(before[i], name)
        invariant forall i :: k <= i < |chartPanels| ==> chartPanels[i].topicBuffers == before[i]
      {
        var panel := chartPanels[k];
        assert forall i :: 0 <= i < |chartPanels| && i != k ==> chartPanels[i] != panel;
        panel.RemoveTopic(name);
      }
      assert forall i :: 0 <= i < |chartPanels| ==> Contents()[i] == RemoveEverywhere(before, name)[i];
    }

    /** `toggle_topic`: removes `name` everywhere if some panel has it, otherwise adds it. */
    method ToggleTopic(name: string)
      requires Valid()
      modifies this, chartPanels
      ensures Valid() && Contents() == Toggle(old(Contents()), name)
      ensures forall i :: 0 <= i < |chartPanels| ==> chartPanels[i] in old(chartPanels) || fresh(chartPanels[i])
    {
      if HasTopic(name) {
        RemoveTopic(name);
      } else {
        AddTopic(name);
      }
    }
  }

  /**
   * The page's flow for one topic: the initial state, then two clicks on the
   * same topic. The topic ends absent and the single panel is kept, empty.
   */
  method ClickTwice(name: string) returns (plot: TimePlotData)
    ensures plot.Valid() && plot.Contents() == [[]] && !plot.HasTopic(name)
  {
    plot := new TimePlotData();
    plot.ToggleTopic(name);
    plot.ToggleTopic(name);
    ToggleTwiceAbsent([[]], name);
  }
}
