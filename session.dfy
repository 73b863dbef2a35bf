/**
 * The browser window's own state (`MainWindow`): the ordered tabs with the
 * index of the current one, whether the window has been closed, and the
 * history list. The methods are the window's handlers that change this
 * state: add_new_tab, close_current_tab, navigate_to_url, update_history
 * and the two history-dialog actions.
 */
module Session {
  import opened Wrappers
  import opened Dialog
  import History
  import AddressBar

  /** The page every new tab opens. */
  const HomeUrl: string := "https://google.com"

  const NewTabTitle: string := "New Tab"

  /** A tab: an id that stays fixed for its lifetime, the URL its view was
      sent to, and the text on its tab. */
  datatype Tab = Tab(id: nat, url: string, title: string)

  /** The tabs after the one at `i` is removed; the others keep their order. */
  function RemoveAt(tabs: seq<Tab>, i: nat): (r: seq<Tab>)
    requires i < |tabs|
    ensures |r| == |tabs| - 1
    ensures forall j :: 0 <= j < i ==> r[j] == tabs[j]
    ensures forall j :: i <= j < |r| ==> r[j] == tabs[j + 1]
  {
    tabs[..i] + tabs[i + 1..]
  }

  /** The current index Qt's tab bar chooses when the tab at `removed` goes
      (its default, select-the-tab-to-the-right rule): the current tab stays
      current if it was not removed; otherwise its right neighbour, or its
      left one when it was last. */
  function CurrentAfterRemoval(tabs: seq<Tab>, current: nat, removed: nat): (c: nat)
    requires current < |tabs| && removed < |tabs| && |tabs| > 1
    ensures c < |tabs| - 1
    ensures removed != current ==> RemoveAt(tabs, removed)[c] == tabs[current]
    ensures removed == current && removed < |tabs| - 1 ==> RemoveAt(tabs, removed)[c] == tabs[removed + 1]
    ensures removed == current && removed == |tabs| - 1 ==> RemoveAt(tabs, removed)[c] == tabs[removed - 1]
  {
    if removed < current then current - 1
    else if removed > current then current
    else if removed < |tabs| - 1 then removed
    else removed - 1
  }

  class MainWindow {
    var history: seq<string>
    var tabs: seq<Tab>
    var current: nat
    var nextId: nat
    var closed: bool

    /** Every tab id is below nextId, and no two tabs share one. */
    ghost predicate IdsFresh()
      reads this
    {
      && (forall i :: 0 <= i < |tabs| ==> tabs[i].id < nextId)
      && (forall i, j :: 0 <= i < j < |tabs| ==> tabs[i].id != tabs[j].id)
    }

    /** A window always has a tab, and the current index names one. */
    ghost predicate Valid()
      reads this
    {
      IdsFresh() && 0 < |tabs| && current < |tabs|
    }

    /** `MainWindow()`: the history that load_history read (`saved`, empty
        when there is no history file), then one tab on the home page. */
    constructor (saved: seq<string>)
      ensures Valid() && !closed
      ensures tabs == [Tab(0, HomeUrl, NewTabTitle)] && current == 0 && nextId == 1
      ensures history == History.Record(saved, HomeUrl, History.QUrlIn(History.QUrl(HomeUrl), saved))
    {
      history := saved;
      tabs := [];
      current := 0;
      nextId := 0;
      closed := false;
      new;
      AddNewTab(Some(History.QUrl(HomeUrl)), NewTabTitle);
    }

    /** `update_history(url)`, as written: insert the URL's text at index 0
        unless the membership test finds it, then pop index 0 above the cap. */
    method UpdateHistory(url: History.QUrl)
      modifies this`history
      ensures history == History.Record(old(history), url.text, History.QUrlIn(url, old(history)))
      ensures |old(history)| <= History.MaxEntries ==> |history| <= History.MaxEntries
    {
      if !History.QUrlIn(url, history) {
        history := [url.text] + history;
        if |history| > History.MaxEntries {
          history := history[1..];
        }
      }
    }

    /** `add_new_tab(qurl, title)`: a new tab at the end, made current, sent
        to `qurl` (the home page when there is none); the URL is then
        recorded in the history. */
    method AddNewTab(qurl: Option<History.QUrl>, title: string)
      requires IdsFresh()
      modifies this
      ensures Valid()
      ensures var url := qurl.GetOr(History.QUrl(HomeUrl));
        && tabs == old(tabs) + [Tab(old(nextId), url.text, title)]
        && current == |old(tabs)|
        && history == History.Record(old(history), url.text, History.QUrlIn(url, old(history)))
      ensures nextId == old(nextId) + 1 && closed == old(closed)
    {
      var url := if qurl.None? then History.QUrl(HomeUrl) else qurl.value;
      tabs := tabs + [Tab(nextId, url.text, title)];
      nextId := nextId + 1;
      current := |tabs| - 1;
      UpdateHistory(url);
    }

    /** `close_current_tab(index)`: with more than one tab, the tab at
        `index` is removed (an index Qt does not know removes nothing);
        with one tab the window closes instead, keeping its tab. */
    method CloseCurrentTab(index: int)
      requires Valid()
      modifies this
      ensures Valid()
      ensures history == old(history) && nextId == old(nextId)
      ensures |old(tabs)| > 1 && 0 <= index < |old(tabs)| ==>
        && tabs == RemoveAt(old(tabs), index)
        && current == CurrentAfterRemoval(old(tabs), old(current), index)
        && closed == old(closed)
      ensures |old(tabs)| > 1 && !(0 <= index < |old(tabs)|) ==>
        tabs == old(tabs) && current == old(current) && closed == old(closed)
      ensures |old(tabs)| <= 1 ==> tabs == old(tabs) && current == old(current) && closed
    {
      if |tabs| > 1 {
        if 0 <= index < |tabs| {
          var remaining := RemoveAt(tabs, index);
          current := CurrentAfterRemoval(tabs, current, index);
          tabs := remaining;
        }
      } else {
        closed := true;
      }
    }

    /** `navigate_to_url()` for the address-bar text `text`: the current tab
        is sent to the resolved URL, which is then recorded in the history. */
    method NavigateToUrl(text: string)
      requires Valid()
      modifies this
      ensures Valid()
      ensures var url := AddressBar.Resolve(text);
        && tabs == old(tabs)[old(current) := old(tabs)[old(current)].(url := url)]
        && history == History.Record(old(history), url, History.QUrlIn(History.QUrl(url), old(history)))
      ensures current == old(current) && nextId == old(nextId) && closed == old(closed)
    {
      var url := AddressBar.Resolve(text);
      ghost var before := tabs;
      tabs := tabs[current := tabs[current].(url := url)];
      assert forall i :: 0 <= i < |tabs| ==> tabs[i].id == before[i].id;
      UpdateHistory(History.QUrl(url));
    }

    /** The dialog's "Delete Selected History": with an entry selected and
        the deletion confirmed, `history.remove` drops its first occurrence.
        `raised` reports the ValueError `remove` raises for an entry that is
        not in the history, which then stays as it was. */
    method DeleteSelectedHistory(selected: Option<string>, reply: Reply) returns (raised: bool)
      modifies this`history
      ensures raised <==> selected.Some? && reply == Yes && selected.value !in old(history)
      ensures selected.Some? && reply == Yes && !raised ==>
        history == History.RemoveFirst(old(history), selected.value).value
      ensures !(selected.Some? && reply == Yes) || raised ==> history == old(history)
    {
      raised := false;
      if selected.Some? && reply == Yes {
        var removed := History.RemoveFirst(history, selected.value);
        if removed.None? {
          raised := true;
        } else {
          history := removed.value;
        }
      }
    }

    /** The dialog's "Clear All History": confirmed, the history empties. */
    method ClearAllHistory(reply: Reply)
      modifies this`history
      ensures reply == Yes ==> history == []
      ensures reply == No ==> history == old(history)
    {
      if reply == Yes {
        history := [];
      }
    }
  }
}
