# Selection state of the time-plot page

This project models the state behind a page that lets the user select
topics for a time plot. The state is a `TimePlotData`: an ordered list of
chart panels. Each `ChartPanel` is an ordered list of `TopicBuffer`s, and a
`TopicBuffer` only names its topic. Clicking a topic calls
`toggle_topic(name)`. If some panel already has the topic, the click removes
it from every panel. Otherwise it adds the topic to the end of the last
panel, and creates that panel first when there is none. The page starts with
a single empty panel. `add_chart` replaces every panel with one new empty
panel; it does not append one.

The model has three modules:

- `TopicBuffers` (`topic_buffers.dfy`) gives the value-level meaning of one
  panel. `Contains` is the panel's `any` scan and `Retain` is its `retain`
  step. The facts about them live here too: which topics are present, order,
  idempotence and the no-duplicates invariant.
- `PanelLists` (`panel_lists.dfy`) gives the value-level meaning of the
  plot's operations on the list of panels: `AnyHas`, `RemoveEverywhere`,
  `AddToLast` and `Toggle`. It also holds the lemmas that state what those
  operations promise.
- `TimePlot` (`time_plot.dfy`) holds two classes. `ChartPanel` has a
  `topicBuffers` field and `TimePlotData` has a `chartPanels` field, and
  their methods update those fields in place, as the source does. Each
  method's postcondition ties the new state to the value-level function of
  the old state. `TimePlotData.Contents()` is that abstract state, and
  `TimePlotData.Valid()` says that the panel objects are distinct.

Each list sits inside a reactive signal in the source. Here, reading or
writing a signal (`with`, `with_untracked`, `update`, `set`) is a plain read
or write of the field. Topic names (`&'static str`) are `string`s.

## Model

| member | source | states |
|---|---|---|
| `TopicBuffers.Contains` | app/src/lib.rs:60-62 | A panel has a topic exactly when some index holds a buffer whose identifier is that name. |
| `TopicBuffers.Retain` | app/src/lib.rs:70-78 | After `retain`, a buffer naming the removed topic occurs zero times. Every other buffer occurs exactly as many times as before. |
| `TopicBuffers.RetainMembership` | app/src/lib.rs:70-78 | After removal the topic is absent from the panel. Every other topic is present exactly when it was before. |
| `TopicBuffers.RetainAppend` | app/src/lib.rs:77 | Removal distributes over concatenation, so the kept buffers stay in their original relative order. |
| `TopicBuffers.RetainAbsent` | app/src/lib.rs:77 | Removing a topic the panel does not have leaves the panel unchanged. |
| `TopicBuffers.RetainIdempotent` | app/src/lib.rs:70-78 | Removing a topic twice gives the same panel as removing it once. |
| `TopicBuffers.RetainKeepsDistinct` | app/src/lib.rs:77 | Removal keeps a duplicate-free panel duplicate-free. |
| `TopicBuffers.AppendMembership` | app/src/lib.rs:64-68 | After a push the pushed name is present. Every other topic is present exactly when it was before. |
| `TopicBuffers.AppendKeepsDistinct` | app/src/lib.rs:64-68 | Pushing a name the panel does not have keeps it duplicate-free. |
| `PanelLists.AnyHas` | app/src/lib.rs:18-22 | The plot has a topic exactly when some panel's own scan finds it. |
| `PanelLists.AnyHasEntry` | app/src/lib.rs:18-22 | The plot has a topic exactly when some buffer of some panel names it. |
| `PanelLists.RemoveEverywhereSpec` | app/src/lib.rs:44-47 | Removal keeps the panel count, including panels left empty, and leaves the topic in no panel. Every other topic's presence is unchanged. |
| `PanelLists.RemoveEverywhereIdempotent` | app/src/lib.rs:44-47 | Removing a topic from every panel twice equals doing it once. |
| `PanelLists.AddToLastShape` | app/src/lib.rs:24-34 | Adding to zero panels gives exactly one panel; otherwise the panel count stays the same. Only the last panel changes, gaining the name at its end. |
| `PanelLists.AddToLastMembership` | app/src/lib.rs:24-34 | After adding, the topic is present. Every other topic's presence is unchanged. |
| `PanelLists.RemoveEverywhere` | app/src/lib.rs:44-47 | The contents after `remove_topic`: each panel after its own `retain`. The function has no contract of its own; `RemoveEverywhereSpec` and `RemoveEverywhereIdempotent` state its promises. |
| `PanelLists.AddToLast` | app/src/lib.rs:24-34 | The contents after `add_topic`: an empty list first becomes one empty panel, then the name is pushed onto the last panel. The function has no contract of its own; `AddToLastShape` and `AddToLastMembership` state its promises. |
| `PanelLists.Toggle` | app/src/lib.rs:36-42 | The contents after `toggle_topic`: `RemoveEverywhere` when some panel has the name, `AddToLast` otherwise. The function has no contract of its own; `ToggleFlips`, `ToggleTwicePresence`, `ToggleKeepsOthers`, `ToggleTwiceAbsent`, `ToggleFromNoPanels`, `ToggleKeepsDistinct` and `ToggleKeepsOnePanel` state its promises. |
| `PanelLists.ToggleKeepsOnePanel` | app/src/lib.rs:36-42 | From a state with exactly one panel, toggling leaves exactly one panel. The initial state and `add_chart` give one panel, so every state reachable by clicks has one panel, and the lazy `add_chart` in `add_topic` is then never taken. |
| `PanelLists.ToggleFlips` | app/src/lib.rs:36-42 | Toggling negates whether the plot has the topic. |
| `PanelLists.ToggleTwicePresence` | app/src/lib.rs:36-42 | Toggling twice restores whether the plot has the topic. |
| `PanelLists.ToggleKeepsOthers` | app/src/lib.rs:36-42 | Toggling one topic does not change the presence of any other topic. |
| `PanelLists.ToggleTwiceAbsent` | app/src/lib.rs:36-42 | Toggling an absent topic twice restores the panels. The exception is an empty list, which becomes one empty panel. |
| `PanelLists.ToggleFromNoPanels` | app/src/lib.rs:36-42 | From no panels, one toggle gives `[[name]]` and a second toggle gives `[[]]`, so the empty panel is kept. |
| `PanelLists.ToggleKeepsDistinct` | app/src/lib.rs:36-42 | When no panel holds a duplicate identifier, toggling keeps it that way, because a name is added only when no panel has it. |
| `TimePlot.ChartPanel.constructor` | app/src/lib.rs:50-53 | `ChartPanel::default()` holds no buffers. |
| `TimePlot.ChartPanel.IsEmpty` | app/src/lib.rs:56-58 | True exactly when the panel holds zero buffers, which is exactly when no topic at all is present in it. |
| `TimePlot.ChartPanel.HasTopic` | app/src/lib.rs:60-62 | True exactly when a buffer with that identifier is in the panel. |
| `TimePlot.ChartPanel.AddTopic` | app/src/lib.rs:64-68 | Appends exactly one buffer at the end with no duplicate check. Earlier buffers are unchanged. |
| `TimePlot.ChartPanel.RemoveTopic` | app/src/lib.rs:70-78 | The new buffers are the old ones with every buffer naming the topic dropped (`Retain`). |
| `TimePlot.TimePlotData.constructor` | app/src/lib.rs:90-92 | The initial state is exactly one fresh, empty panel. |
| `TimePlot.TimePlotData.AddChart` | app/src/lib.rs:14-16 | Whatever the prior state, exactly one fresh panel remains, and it is empty. |
| `TimePlot.TimePlotData.HasTopic` | app/src/lib.rs:18-22 | The result equals `AnyHas` of the abstract contents. |
| `TimePlot.TimePlotData.AddTopic` | app/src/lib.rs:24-34 | The new contents are `AddToLast` of the old contents: a lazy `add_chart`, then a push onto the last panel. The panels stay distinct objects, and each is an old panel or a fresh one. |
| `TimePlot.TimePlotData.RemoveTopic` | app/src/lib.rs:44-47 | The loop over the panels leaves contents equal to `RemoveEverywhere` of the old contents. The panel objects are unchanged. |
| `TimePlot.TimePlotData.ToggleTopic` | app/src/lib.rs:36-42 | The new contents are `Toggle` of the old contents. The panels stay distinct objects, and each is an old panel or a fresh one, so clicks can follow one another. |
| `TimePlot.ClickTwice` | app/src/lib.rs:90-92 | From the initial one-empty-panel state, two clicks on the same topic leave one empty panel, and the topic is absent. |

## Left out

- The `App` and `HomePage` components (app/src/lib.rs:87-155) are left out. They are view markup, routing, the stylesheet and the title, all rendered by the web framework, which is outside this model. The seven-name catalog they list is data only.
- Reactive-signal mechanics are left out: dependency tracking, re-render scheduling, and the difference between `with` and `with_untracked`. Every signal access is a plain field read or write.
- Aliasing of panel handles is left out. In the source `ChartPanel` is `Copy` over a signal handle, and the stored plot is cloned on every access. Here each panel is its own object, and `TimePlotData.Valid()` requires the panels to be distinct. This always holds in the source, because every panel is created by `ChartPanel::default()`.
- The context registry (`provide_context`, and `use_context(...).expect` at lib.rs:93 and 114) is left out, including its abort when the context is missing.
- The `filter(...).for_each(|_| {})` at lib.rs:72-75 is left out, because it has no effect.
- The `error_template` module (lib.rs:5) is not part of this model.
- Only the presence-based toggle at app/src/lib.rs:36-42 is modelled: a topic is removed from every panel when some panel has it, and otherwise added to the last panel.
