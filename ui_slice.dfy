/** The `ui` store slice of the dashboard front end (uiSlice.ts): sidebar,
    tab, theme and a newest-first list of notifications. */
module UiSlice {
  import opened RaftTypes
  import opened BoundedLog

  const NotificationCap: nat := 50

  datatype Tab = NodesTab | MessagesTab | LogsTab | PerformanceTab
  datatype Theme = Light | Dark
  datatype NoticeKind = Info | Success | Warning | Error

  /** A notification (its timestamp is not modelled; its id is the clock
      reading the caller supplies). */
  datatype Notification = Notification(id: string, kind: NoticeKind, title: string, message: string, read: bool)

  /** markNotificationRead on a list: the first notification with the id is
      marked read. */
  function MarkFirstRead(ns: seq<Notification>, id: string): seq<Notification>
  {
    match FirstIndex(ns, (n: Notification) => n.id == id)
    case None => ns
    case Some(i) => ns[i := ns[i].(read := true)]
  }

  /** Only the first notification with the id changes, and only its read
      flag; the list is unchanged when the id is absent; marking twice is
      marking once. */
  lemma MarkFirstReadEffect(ns: seq<Notification>, id: string)
    ensures var r := MarkFirstRead(ns, id);
      && |r| == |ns|
      && ((forall i :: 0 <= i < |ns| ==> ns[i].id != id) ==> r == ns)
      && (forall i :: 0 <= i < |ns| && ns[i].id == id && (forall j :: 0 <= j < i ==> ns[j].id != id) ==>
            r[i] == ns[i].(read := true)
            && forall j :: 0 <= j < |ns| && j != i ==> r[j] == ns[j])
      && MarkFirstRead(r, id) == r
  {
    var f := FirstIndex(ns, (n: Notification) => n.id == id);
    var r := MarkFirstRead(ns, id);
    if f.Some? {
      var g := FirstIndex(r, (n: Notification) => n.id == id);
      assert r[f.value].id == id;
      if g.Some? {
        assert g.value == f.value;
      }
    }
  }

  class UiStore {
    var sidebarOpen: bool
    var selectedTab: Tab
    var theme: Theme
    var notifications: seq<Notification>

    constructor ()
      ensures sidebarOpen && selectedTab == NodesTab && theme == Dark && notifications == []
    {
      sidebarOpen := true;
      selectedTab := NodesTab;
      theme := Dark;
      notifications := [];
    }

    /** Flips the sidebar, so two calls restore it. */
    method ToggleSidebar()
      modifies this`sidebarOpen
      ensures sidebarOpen == !old(sidebarOpen)
    {
      sidebarOpen := !sidebarOpen;
    }

    method SetSelectedTab(t: Tab)
      modifies this`selectedTab
      ensures selectedTab == t
    {
      selectedTab := t;
    }

    method SetTheme(t: Theme)
      modifies this`theme
      ensures theme == t
    {
      theme := t;
    }

    /** addNotification: a new unread notification first, the list cut to 50. */
    method AddNotification(kind: NoticeKind, title: string, message: string, id: string)
      modifies this`notifications
      ensures notifications == PrependBounded(old(notifications), Notification(id, kind, title, message, false), NotificationCap)
      ensures notifications[0] == Notification(id, kind, title, message, false)
      ensures |notifications| <= NotificationCap
    {
      var t := [Notification(id, kind, title, message, false)] + notifications;
      if |t| > NotificationCap {
        t := t[..NotificationCap];
      }
      notifications := t;
    }

    method MarkNotificationRead(id: string)
      modifies this`notifications
      ensures notifications == MarkFirstRead(old(notifications), id)
    {
      var found := FirstIndex(notifications, (n: Notification) => n.id == id);
      if found.Some? {
        notifications := notifications[found.value := notifications[found.value].(read := true)];
      }
    }

    method ClearNotifications()
      modifies this`notifications
      ensures notifications == []
    {
      notifications := [];
    }
  }
}
