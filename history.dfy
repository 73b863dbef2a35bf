/**
 * The browsing history: a list of URL strings, newest first, that
 * `update_history` grows and the history dialog shrinks.
 *
 * `update_history` receives a QUrl object and tests `url not in self.history`
 * against a list of Python strings. Python's `in` compares with `==`; a QUrl
 * only compares equal to another QUrl, so the test never finds a string and
 * every URL is inserted. `Record` takes the outcome of the test as a
 * parameter so that both this reading and the intended one (comparing the
 * URL's text) can be stated.
 */
module History {
  import opened Wrappers

  /** The length above which update_history pops an entry. */
  const MaxEntries: nat := 50

  /** A QUrl object, by its `toString()` text. */
  datatype QUrl = QUrl(text: string)

  /** The two kinds of Python values that meet in the membership test. */
  datatype PyValue = Str(s: string) | Url(u: QUrl)

  /** Python `==` between them: a str equals an equal str, a QUrl an equal
      QUrl; a QUrl and a str are never equal. */
  predicate PyEquals(a: PyValue, b: PyValue) {
    match (a, b)
    case (Str(x), Str(y)) => x == y
    case (Url(x), Url(y)) => x == y
    case _ => false
  }

  /** Python's `x in list` for a list of strings. */
  predicate PyIn(x: PyValue, list: seq<string>) {
    exists i | 0 <= i < |list| :: PyEquals(x, Str(list[i]))
  }

  /** The test update_history makes, as the program runs it. */
  predicate QUrlIn(url: QUrl, history: seq<string>) {
    PyIn(Url(url), history)
  }

  /** A QUrl is never found in a list of strings. */
  lemma QUrlNeverFound(url: QUrl, history: seq<string>)
    ensures !QUrlIn(url, history)
  {
  }

  /** Had the URL's text been tested, membership would be the usual one. */
  lemma TextTestIsMembership(text: string, history: seq<string>)
    ensures PyIn(Str(text), history) <==> text in history
  {
    if text in history {
      var i :| 0 <= i < |history| && history[i] == text;
      assert PyEquals(Str(text), Str(history[i]));
    }
  }

  // ---------------------------------------------------------------------
  // update_history as written
  // ---------------------------------------------------------------------

  /** The new history after update_history inserts `entry` at index 0 when
      `present` is false and then, above MaxEntries entries, pops index 0. */
  function Record(history: seq<string>, entry: string, present: bool): (r: seq<string>)
    ensures r == history || r == [entry] + history
    ensures r != history <==> !present && |history| < MaxEntries
    ensures |history| <= MaxEntries ==> |r| <= MaxEntries
  {
    if present then history
    else
      var inserted := [entry] + history;
      if |inserted| > MaxEntries then inserted[1..] else inserted
  }

  /** A sequence of visits recorded one after the other, as the program runs
      it (the membership test never succeeds). */
  function RecordAll(history: seq<string>, visits: seq<string>): seq<string>
    decreases |visits|
  {
    if visits == [] then history
    else RecordAll(Record(history, visits[0], QUrlIn(QUrl(visits[0]), history)), visits[1..])
  }

  /** However many visits are recorded, a history of at most MaxEntries
      entries stays at most MaxEntries long. */
  lemma {:induction false} RecordAllKeepsCap(history: seq<string>, visits: seq<string>)
    requires |history| <= MaxEntries
    ensures |RecordAll(history, visits)| <= MaxEntries
    decreases |visits|
  {
    if visits != [] {
      var next := Record(history, visits[0], QUrlIn(QUrl(visits[0]), history));
      RecordAllKeepsCap(next, visits[1..]);
    }
  }

  /** Once the history holds MaxEntries entries, no visit is ever recorded
      again: pop(0) removes the entry that insert(0, ...) has just added. */
  lemma {:induction false} FullHistoryIsFrozen(history: seq<string>, visits: seq<string>)
    requires |history| >= MaxEntries
    ensures RecordAll(history, visits) == history
    decreases |visits|
  {
    if visits != [] {
      FullHistoryIsFrozen(history, visits[1..]);
    }
  }

  /** Below the cap, each visit goes to index 0, even one already listed. */
  lemma {:induction false} VisitsArePrepended(history: seq<string>, visits: seq<string>)
    requires |history| + |visits| <= MaxEntries
    ensures RecordAll(history, visits) == Reversed(visits) + history
    decreases |visits|
  {
    if visits != [] {
      var v := visits[0];
      RecordBelowCap(history, v);
      VisitsArePrepended([v] + history, visits[1..]);
      ReversedFirstLast(visits, Reversed(visits[1..]), history);
    }
  }

  /** Below the cap, one visit is inserted at index 0 and nothing is popped. */
  lemma RecordBelowCap(history: seq<string>, v: string)
    requires |history| < MaxEntries
    ensures Record(history, v, QUrlIn(QUrl(v), history)) == [v] + history
  {
    QUrlNeverFound(QUrl(v), history);
  }

  /** The first visit ends up last in the reversal, just before `history`. */
  lemma ReversedFirstLast(visits: seq<string>, rest: seq<string>, history: seq<string>)
    requires visits != [] && rest == Reversed(visits[1..])
    ensures rest + ([visits[0]] + history) == Reversed(visits) + history
  {
    assert Reversed(visits) == rest + [visits[0]];
  }

  function Reversed(s: seq<string>): (r: seq<string>)
    ensures |r| == |s|
  {
    if s == [] then [] else Reversed(s[1..]) + [s[0]]
  }

  /** Visiting the same page twice leaves two entries for it. */
  lemma RevisitDuplicates(url: string)
    ensures RecordAll([], [url, url]) == [url, url]
  {
    VisitsArePrepended([], [url, url]);
    assert Reversed([url, url]) == [url, url];
  }

  // ---------------------------------------------------------------------
  // The reading that compares text
  // ---------------------------------------------------------------------

  ghost predicate NoDuplicates(s: seq<string>) {
    forall i, j :: 0 <= i < j < |s| ==> s[i] != s[j]
  }

  /** With a membership test on the URL's text, a URL already listed leaves
      the history unchanged, a new one goes to the front below the cap, and
      a history without duplicates keeps none. */
  lemma RecordByText(history: seq<string>, entry: string)
    ensures entry in history ==> Record(history, entry, entry in history) == history
    ensures entry !in history && |history| < MaxEntries ==>
      Record(history, entry, entry in history) == [entry] + history
    ensures NoDuplicates(history) ==> NoDuplicates(Record(history, entry, entry in history))
  {
    var r := Record(history, entry, entry in history);
    if NoDuplicates(history) && r != history {
      forall i, j | 0 <= i < j < |r| ensures r[i] != r[j] {
        if i == 0 {
          assert r[j] == history[j - 1];
        } else {
          assert r[i] == history[i - 1] && r[j] == history[j - 1];
        }
      }
    }
  }

  // ---------------------------------------------------------------------
  // The history dialog
  // ---------------------------------------------------------------------

  /** The index of the first occurrence of `x` in `s`. */
  function FirstIndex(s: seq<string>, x: string): (i: nat)
    requires x in s
    ensures i < |s| && s[i] == x
    ensures forall j :: 0 <= j < i ==> s[j] != x
  {
    if s[0] == x then 0 else 1 + FirstIndex(s[1..], x)
  }

  /** `list.remove(x)`: the list without the first occurrence of `x`, or
      None where Python raises ValueError because `x` is not listed. */
  function RemoveFirst(s: seq<string>, x: string): (r: Option<seq<string>>)
    ensures r.None? <==> x !in s
    ensures r.Some? ==> |r.value| == |s| - 1 && multiset(r.value) + multiset{x} == multiset(s)
    ensures r.Some? ==> forall j :: 0 <= j < FirstIndex(s, x) ==> r.value[j] == s[j]
    ensures r.Some? ==> forall j :: FirstIndex(s, x) <= j < |r.value| ==> r.value[j] == s[j + 1]
  {
    if x in s then
      var i := FirstIndex(s, x);
      assert s == s[..i] + [x] + s[i + 1..];
      Some(s[..i] + s[i + 1..])
    else None
  }

  // ---------------------------------------------------------------------
  // The evidently intended update_history
  // ---------------------------------------------------------------------

  /** The update the guard and the cap of update_history evidently aim at:
      a URL already listed (compared as text) leaves the history as it is;
      a new one goes to index 0 and, above the cap, the oldest entries at
      the end are evicted. */
  function RecordFixed(history: seq<string>, entry: string): (r: seq<string>)
    ensures entry in history ==> r == history
    ensures entry !in history ==>
      |r| == if |history| + 1 > MaxEntries then MaxEntries else |history| + 1
    ensures entry !in history ==> r[0] == entry && r[1..] == history[..|r| - 1]
    ensures |history| <= MaxEntries ==> |r| <= MaxEntries
    ensures NoDuplicates(history) ==> NoDuplicates(r)
  {
    if entry in history then history
    else
      var inserted := [entry] + history;
      var r := if |inserted| > MaxEntries then inserted[..MaxEntries] else inserted;
      assert r[1..] == history[..|r| - 1];
      assert NoDuplicates(history) ==> NoDuplicates(r) by {
        if NoDuplicates(history) {
          forall i, j | 0 <= i < j < |r| ensures r[i] != r[j] {
            assert r[j] == history[j - 1];
            if i > 0 {
              assert r[i] == history[i - 1];
            }
          }
        }
      }
      r
  }

  /** Below the cap the corrected update is the text-comparing guard alone;
      the two differ only once the history is full. */
  lemma RecordFixedBelowCap(history: seq<string>, entry: string)
    requires |history| < MaxEntries
    ensures RecordFixed(history, entry) == Record(history, entry, entry in history)
  {
    RecordByText(history, entry);
  }

  /** At the cap, a new URL still reaches index 0 and the oldest entry goes,
      where the code as written leaves the history frozen. */
  lemma RecordFixedAtCap(history: seq<string>, entry: string)
    requires |history| == MaxEntries && entry !in history
    ensures RecordFixed(history, entry) == [entry] + history[..MaxEntries - 1]
    ensures Record(history, entry, QUrlIn(QUrl(entry), history)) == history
  {
    var r := RecordFixed(history, entry);
    assert r == [r[0]] + r[1..];
  }
}
