# Notification stack controller

This project models and proves the controller of Captura's notification
stack (`NotificationStack`). The stack is an overlay that shows balloons,
newest first. It has four rules:

- **Soft capacity.** `MaxItems = 5`. Each `Add` requests the removal of every
  balloon past the fifth, except unfinished progress balloons.
- **Exclusive expand.** Adding a balloon collapses every screenshot balloon
  already shown. A new screenshot balloon is expanded, so at most one
  screenshot is expanded, and it is the newest.
- **Idle hide.** A one-second timer hides the stack after five seconds
  without activity. If a progress balloon is unfinished, the idle clock is
  pushed forward instead.
- **Empty means hidden.** When the last balloon leaves the list, the stack
  hides.

The model has three modules:

- `ItemList` models the item collection's `Remove` (first occurrence, no-op
  when absent). It also shows what a batch of removals leaves once every one
  of them has completed.
- `IdleClock` models the idle time, the timer's `IsEnabled` flag and the
  shown/hidden target as a value (`State`). It defines `Show`, `Hide`, the
  tick and the mouse-move handler as functions on that value, with lemmas
  about sequences of ticks.
- `Notifications` holds `Balloon`, the eviction specification and its lemmas,
  and the `NotificationStack` class. The class's fields are the item list,
  the running removal animations (`pending`), the `RemoveRequested`
  subscriptions (`handlers`), the idle time, the timer flag and the
  visibility. Its methods state their new state in terms of the specification
  functions above.

Modelling choices:

- Time is an integer count of `DateTime` ticks (100 ns), passed as `now`.
  `default(DateTime)`, the idle time before any activity, is 0.
- A balloon is an object, so its identity is its reference. Its kind is
  `Plain`, `Progress` or `ScreenShot`. Whether it raises `RemoveRequested` is
  a separate flag (`requester`). The progress view model's `Finished` and the
  screenshot expander's `IsExpanded` are mutable fields.
- `Remove` only starts an animation, which is recorded in `pending`.
  `RemoveCompleted` is the animation's `Completed` handler. It takes the
  balloon out of the list if it is still there, then hides the stack if the
  list is empty. The eviction pass of `Add` and `OnClose` both iterate over a
  snapshot, as the source does.

Two facts of the code shape the model:

- `Add` does not call `Show` and leaves the idle time alone
  (`src/Captura/Controls/NotificationStack.xaml.cs:99-133`).
  `NotificationStack.Add` ensures the clock fields are unchanged.
- Removal is deferred to the animation's completion
  (`src/Captura/Controls/NotificationStack.xaml.cs:80-95`). It is not
  immediate.

## Model

| member | source | states |
|---|---|---|
| `ItemList.RemoveFirst` | src/Captura/Controls/NotificationStack.xaml.cs:86 | `Items.Remove(e)` leaves the list unchanged when `e` is absent, and otherwise makes it exactly one element shorter |
| `ItemList.RemoveFirstAt` | src/Captura/Controls/NotificationStack.xaml.cs:86 | removing `e` deletes exactly the element at its first position; the other elements keep their order |
| `ItemList.RemoveFirstMembers` | src/Captura/Controls/NotificationStack.xaml.cs:86 | removing `e` keeps every other element and adds nothing |
| `ItemList.RemoveFirstDistinct` | src/Captura/Controls/NotificationStack.xaml.cs:86 | on a duplicate-free list, removal takes `e` out entirely and keeps the list duplicate-free |
| `ItemList.RemoveFirstIdempotent` | src/Captura/Controls/NotificationStack.xaml.cs:84-92 | a second completion for an already removed balloon leaves the list as the first left it |
| `ItemList.RemoveEachIsWithout` | src/Captura/Controls/NotificationStack.xaml.cs:84-92 | once a batch of removals has completed, the list holds exactly the balloons that were not requested, in their original order, whatever order the completions came in |
| `IdleClock.ShowIdempotent` | src/Captura/Controls/NotificationStack.xaml.cs:56-64 | `Show` sets the idle time to `now`, shows the stack and runs the timer; calling it twice equals calling it once |
| `IdleClock.HideIdempotent` | src/Captura/Controls/NotificationStack.xaml.cs:48-54 | `Hide` hides the stack and stops the timer; calling it twice equals calling it once |
| `IdleClock.BusyNeverHides` | src/Captura/Controls/NotificationStack.xaml.cs:30-46 | while a progress balloon is unfinished, no sequence of ticks hides the stack or stops the timer |
| `IdleClock.IdleHidesIff` | src/Captura/Controls/NotificationStack.xaml.cs:30-46 | with nothing unfinished, a run of ticks leaves the stack shown if and only if it was shown and every tick came less than `TimeoutToHide` after the last activity; in that case nothing changes |
| `IdleClock.IdleHidesOnFifthTick` | src/Captura/Controls/NotificationStack.xaml.cs:12-46 | with one-second ticks after the last activity and nothing unfinished, the stack is still shown after four ticks and hidden from the fifth |
| `IdleClock.MouseMoveResetsIdle` | src/Captura/Controls/NotificationStack.xaml.cs:136-144 | a mouse move four seconds after `Show` restarts the five-second countdown: shown eight seconds after `Show`, hidden nine seconds after it |
| `Notifications.ExclusiveAfterInsert` | src/Captura/Controls/NotificationStack.xaml.cs:106-117 | when every screenshot in the list is collapsed, putting a balloon in front leaves at most one expanded screenshot, and only the new balloon can be it |
| `Notifications.EvictableMembers` | src/Captura/Controls/NotificationStack.xaml.cs:126-131 | the eviction pass requests the removal of a snapshot balloon exactly when it is not an unfinished progress balloon |
| `Notifications.ProtectedMembers` | src/Captura/Controls/NotificationStack.xaml.cs:128-129 | the balloons the eviction pass skips are exactly the unfinished progress balloons of the snapshot |
| `Notifications.EvictableProtectedSplit` | src/Captura/Controls/NotificationStack.xaml.cs:121-131 | every balloon of the snapshot is either evicted or skipped, and the skipped ones are what the snapshot keeps once the evictions complete |
| `Notifications.NewestNeverEvicted` | src/Captura/Controls/NotificationStack.xaml.cs:119-124 | the five newest balloons are never requested for removal by `Add`; each older balloon is requested if and only if it is not unfinished |
| `Notifications.HeadKept` | src/Captura/Controls/NotificationStack.xaml.cs:121-124 | completing the evictions leaves the five newest balloons in place |
| `Notifications.CapacityAfterEviction` | src/Captura/Controls/NotificationStack.xaml.cs:97-132 | once an `Add`'s evictions complete, in any order, the list is its five newest balloons followed by the unfinished older ones; its length is 5 plus the number skipped, and at most 5 when nothing is unfinished |
| `Notifications.CloseEmptiesList` | src/Captura/Controls/NotificationStack.xaml.cs:66-76 | once the removals `OnClose` requested for every balloon have completed, in any order, the list is empty |
| `Notifications.NotificationStack.constructor` | src/Captura/Controls/NotificationStack.xaml.cs:16-28 | the stack starts empty and hidden, with the idle time at `default(DateTime)` and the timer started |
| `Notifications.NotificationStack.Hide` | src/Captura/Controls/NotificationStack.xaml.cs:48-54 | the stack is hidden and the timer stopped; the idle time and the list are unchanged |
| `Notifications.NotificationStack.Show` | src/Captura/Controls/NotificationStack.xaml.cs:56-64 | the idle time is `now`, the stack is shown and the timer runs |
| `Notifications.NotificationStack.TimerOnTick` | src/Captura/Controls/NotificationStack.xaml.cs:30-46 | the tick changes nothing before `TimeoutToHide`; after it, the tick hides the stack and stops the timer if nothing is unfinished, and otherwise sets the idle time to `now` and keeps the visibility; the list is never touched |
| `Notifications.NotificationStack.OnMouseMove` | src/Captura/Controls/NotificationStack.xaml.cs:136-144 | a mouse move on an empty list changes nothing; on a non-empty list it sets the idle time to `now` and shows the stack |
| `Notifications.NotificationStack.Remove` | src/Captura/Controls/NotificationStack.xaml.cs:80-95 | `Remove` only starts the removal animation; the list is not changed |
| `Notifications.NotificationStack.RemoveCompleted` | src/Captura/Controls/NotificationStack.xaml.cs:84-92 | the completion takes exactly that balloon out of the list, keeps the others in order, and leaves the list unchanged if the balloon is already gone; it hides the stack whenever the list is empty afterwards, even if it already was |
| `Notifications.NotificationStack.RaiseRemoveRequested` | src/Captura/Controls/NotificationStack.xaml.cs:101-104 | a balloon's removal request calls `Remove` once for each subscription `Add` made for it |
| `Notifications.NotificationStack.OnClose` | src/Captura/Controls/NotificationStack.xaml.cs:66-76 | close hides the stack, then requests the removal of every balloon in a snapshot of the list, unfinished ones included |
| `Notifications.NotificationStack.Add` | src/Captura/Controls/NotificationStack.xaml.cs:99-133 | the new balloon is at the front, with the old list behind it in order; a new screenshot is expanded and every older screenshot is collapsed, so at most one is expanded; it subscribes to removal requests; it requests the evictions `Evictions` specifies; visibility and the idle time are untouched |
| `Notifications.NotificationStack.ExpandNewest` | src/Captura/Controls/NotificationStack.xaml.cs:106-115 | a new screenshot balloon is expanded and every screenshot already in the list is collapsed; no other expanded flag and no finished flag changes |
| `Notifications.NotificationStack.CollapseScreenShots` | src/Captura/Controls/NotificationStack.xaml.cs:109-115 | every screenshot balloon of the list is collapsed; other balloons keep their expanded flag |
| `Notifications.NotificationStack.RequestEvictions` | src/Captura/Controls/NotificationStack.xaml.cs:119-132 | with more than five balloons, removal is requested for the evictable balloons past the fifth, in list order; otherwise nothing is requested |

## Left out

- WPF animations are not modelled: the opacity fade, the height collapse and
  their durations. Opacity is the boolean `visible`. The height animation is
  the `pending` list with its `RemoveCompleted` step.
- Replacing a running height animation is not modelled. If `Remove` is called
  twice on one balloon, WPF's second `BeginAnimation` replaces the first
  animation. The model lets each request complete once. Removal is
  idempotent, so the list ends up the same.
- `DispatcherTimer` scheduling and the event loop are not modelled. The tick
  is a method called with `now`, and the timer's state is its `IsEnabled`
  flag only. `TimerOnTick` can be called while the timer is stopped; the real
  timer does not deliver ticks then.
- `DateTime.Now` is the parameter `now`. The mouse-move handler reads the
  clock twice, once itself and once through `Show`, and `TimerOnTick` reads
  it twice, once for the timeout test and once to push the idle time
  forward. The model uses a single `now` for both reads in each.
- The stack's initial opacity is set in XAML, which is not part of this
  model. The constructor starts the stack hidden.
- `InitializeComponent`, the XAML, `CloseButton_Click` (it only calls
  `OnClose`) and the event wiring are left out.
- `ScreenShotBalloon.Expander` and `ProgressBalloon.ViewModel` are reduced to
  the `expanded` and `finished` fields. Their other behaviour is not part of
  this model.
- Null balloons are not modelled. `Add(FrameworkElement Element)` accepts
  null and does not check for it before inserting; a `Balloon` here is
  always a non-null reference.
- `Notifications.NotificationStack.Add` requires a balloon that is not
  already in the list. WPF refuses to insert an element that already has a
  parent, so the source never inserts one twice.
- `IdleClock.BusyNeverHides`, `IdleClock.IdleHidesIff`: these lemmas keep the
  "some progress balloon is unfinished" state fixed across the ticks they
  cover. A progress balloon finishing between ticks is one run of ticks
  followed by another.
- `src/Captura.Core/Models/VideoWriterItems/StreamingItem.cs` is not modelled.
  It only builds streaming URLs from the settings and delegates to the FFmpeg
  writer, which is not part of this model.
