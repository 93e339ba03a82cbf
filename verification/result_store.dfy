/** The results tree of the window: one top-level row per URL, holding one child
    row `(status, timestamp)` per check of that URL. */
module ResultStore {

  datatype Row = Row(status: string, timestamp: string)

  datatype Group = Group(url: string, rows: seq<Row>)

  /** The top-level rows of the tree, in display order. */
  type Store = seq<Group>

  /** One `AddURL` call. */
  datatype Entry = Entry(url: string, status: string, timestamp: string)

  function Keys(store: Store): set<string> {
    set g | g in store :: g.url
  }

  /** No two top-level rows carry the same URL. */
  predicate UniqueKeys(store: Store) {
    forall i, j :: 0 <= i < j < |store| ==> store[i].url != store[j].url
  }

  /** The number of child rows in the whole tree. */
  function TotalRows(store: Store): nat {
    if store == [] then 0 else |store[0].rows| + TotalRows(store[1..])
  }

  /** The first top-level index whose URL is `url`, or -1 when there is none. */
  function IndexOf(store: Store, url: string): (r: int)
    ensures -1 <= r < |store|
    ensures r >= 0 ==> store[r].url == url && forall j :: 0 <= j < r ==> store[j].url != url
    ensures r == -1 <==> url !in Keys(store)
  {
    if store == [] then -1
    else if store[0].url == url then 0
    else
      var r := IndexOf(store[1..], url);
      assert Keys(store) == {store[0].url} + Keys(store[1..]);
      if r == -1 then -1 else r + 1
  }

  /** `FindIterIndexByURL`: walks the top-level rows in order and stops at the first
      whose URL equals `url`. */
  method FindIterIndexByURL(store: Store, url: string) returns (index: int)
    ensures index == IndexOf(store, url)
    ensures store == [] ==> index == -1
  {
    index := -1;
    var i := 0;
    while i < |store|
      invariant 0 <= i <= |store|
      invariant forall j :: 0 <= j < i ==> store[j].url != url
      invariant index == -1
    {
      if store[i].url == url {
        index := i;
        break;
      }
      i := i + 1;
    }
    if index == -1 {
      assert url !in Keys(store);
    }
  }

  /** The child rows filed under `url`, empty when the URL has no top-level row. */
  function RowsOf(store: Store, url: string): seq<Row> {
    var i := IndexOf(store, url);
    if i == -1 then [] else store[i].rows
  }

  /** `AddURL`: looks the URL up among the top-level rows and adds a child row
      `(status, timestamp)` under it, appending a new top-level row for the URL when
      there is none. */
  function AddURL(store: Store, url: string, status: string, timestamp: string): Store {
    var i := IndexOf(store, url);
    if i != -1 then store[i := Group(url, store[i].rows + [Row(status, timestamp)])]
    else store + [Group(url, [Row(status, timestamp)])]
  }

  /** `AddURL` is find-or-append: a known URL gets one more child row at the end of its
      own group, with every other group and the order untouched; an unknown URL gets a
      new group with that single row, placed after all the others. */
  lemma AddURLFindOrAppend(store: Store, url: string, status: string, timestamp: string)
    ensures url in Keys(store) ==>
      var r := AddURL(store, url, status, timestamp);
      && |r| == |store|
      && r[IndexOf(store, url)].rows == store[IndexOf(store, url)].rows + [Row(status, timestamp)]
      && (forall j :: 0 <= j < |store| ==> r[j].url == store[j].url)
      && (forall j :: 0 <= j < |store| && j != IndexOf(store, url) ==> r[j] == store[j])
    ensures url !in Keys(store) ==>
      var r := AddURL(store, url, status, timestamp);
      && |r| == |store| + 1
      && r[..|store|] == store
      && r[|store|] == Group(url, [Row(status, timestamp)])
  {
  }

  lemma {:induction false} TotalRowsAppend(store: Store, g: Group)
    ensures TotalRows(store + [g]) == TotalRows(store) + |g.rows|
  {
    if store != [] {
      assert (store + [g])[1..] == store[1..] + [g];
      TotalRowsAppend(store[1..], g);
    }
  }

  lemma {:induction false} TotalRowsUpdate(store: Store, i: int, g: Group)
    requires 0 <= i < |store|
    ensures TotalRows(store[i := g]) == TotalRows(store) - |store[i].rows| + |g.rows|
  {
    if i > 0 {
      assert store[i := g][1..] == store[1..][i - 1 := g];
      TotalRowsUpdate(store[1..], i - 1, g);
    }
  }

  /** Every `AddURL` adds exactly one child row to the tree. */
  lemma AddURLAddsOneRow(store: Store, url: string, status: string, timestamp: string)
    ensures TotalRows(AddURL(store, url, status, timestamp)) == TotalRows(store) + 1
  {
    var i := IndexOf(store, url);
    if i != -1 {
      TotalRowsUpdate(store, i, Group(url, store[i].rows + [Row(status, timestamp)]));
    } else {
      TotalRowsAppend(store, Group(url, [Row(status, timestamp)]));
    }
  }

  /** `AddURL` adds `url` to the keys, and keeps them free of duplicates. */
  lemma AddURLKeys(store: Store, url: string, status: string, timestamp: string)
    ensures Keys(AddURL(store, url, status, timestamp)) == Keys(store) + {url}
    ensures UniqueKeys(store) ==> UniqueKeys(AddURL(store, url, status, timestamp))
  {
    var r := AddURL(store, url, status, timestamp);
    AddURLFindOrAppend(store, url, status, timestamp);
    if url in Keys(store) {
      forall u | u in Keys(r) ensures u in Keys(store) {
        var g :| g in r && g.url == u;
        var j :| 0 <= j < |r| && r[j] == g;
        assert store[j] in store;
      }
      forall u | u in Keys(store) ensures u in Keys(r) {
        var g :| g in store && g.url == u;
        var j :| 0 <= j < |store| && store[j] == g;
        assert r[j] in r;
      }
    } else {
      assert r == store + [Group(url, [Row(status, timestamp)])];
    }
  }

  /** `AddURL` appends the new row to the rows of its own URL and leaves the rows of
      every other URL alone. */
  lemma AddURLRowsOf(store: Store, url: string, status: string, timestamp: string, other: string)
    ensures RowsOf(AddURL(store, url, status, timestamp), other) ==
      RowsOf(store, other) + (if other == url then [Row(status, timestamp)] else [])
  {
    var r := AddURL(store, url, status, timestamp);
    AddURLKeys(store, url, status, timestamp);
    AddURLFindOrAppend(store, url, status, timestamp);
    if url in Keys(store) {
      var i := IndexOf(store, url);
      var o := IndexOf(store, other);
      if o != -1 {
        assert r[o].url == other;
        assert IndexOf(r, other) == o;
      } else {
        assert IndexOf(r, other) == -1;
      }
    } else {
      var o := IndexOf(store, other);
      if other == url {
        assert r[|store|].url == url;
        assert IndexOf(r, other) == |store|;
      } else if o != -1 {
        assert r[o] == store[o];
        assert IndexOf(r, other) == o;
      } else {
        assert IndexOf(r, other) == -1;
      }
    }
  }

  /** The store after a sequence of `AddURL` calls, made in order. */
  function AddAll(store: Store, entries: seq<Entry>): Store
    decreases |entries|
  {
    if entries == [] then store
    else
      var e := entries[|entries| - 1];
      AddURL(AddAll(store, entries[..|entries| - 1]), e.url, e.status, e.timestamp)
  }

  /** The rows a run of calls files under `url`, in call order. */
  function RowsFor(entries: seq<Entry>, url: string): seq<Row>
    decreases |entries|
  {
    if entries == [] then []
    else
      var e := entries[|entries| - 1];
      RowsFor(entries[..|entries| - 1], url) + (if e.url == url then [Row(e.status, e.timestamp)] else [])
  }

  function Urls(entries: seq<Entry>): set<string> {
    set e | e in entries :: e.url
  }

  /** A run of calls adds exactly one child row per call. */
  lemma {:induction false} AddAllAddsRows(store: Store, entries: seq<Entry>)
    ensures TotalRows(AddAll(store, entries)) == TotalRows(store) + |entries|
    decreases |entries|
  {
    if entries != [] {
      var init := entries[..|entries| - 1];
      var e := entries[|entries| - 1];
      AddAllAddsRows(store, init);
      AddURLAddsOneRow(AddAll(store, init), e.url, e.status, e.timestamp);
    }
  }

  lemma UrlsSnoc(entries: seq<Entry>, e: Entry)
    ensures Urls(entries + [e]) == Urls(entries) + {e.url}
  {
    var es := entries + [e];
    forall u | u in Urls(es) ensures u in Urls(entries) + {e.url} {
      var x :| x in es && x.url == u;
      var j :| 0 <= j < |es| && es[j] == x;
      if j < |entries| {
        assert entries[j] in entries;
      }
    }
    forall u | u in Urls(entries) ensures u in Urls(es) {
      var x :| x in entries && x.url == u;
      assert x in es;
    }
    assert e in es;
  }

  /** A run of calls adds exactly the called URLs as keys. */
  lemma {:induction false} AddAllKeys(store: Store, entries: seq<Entry>)
    ensures Keys(AddAll(store, entries)) == Keys(store) + Urls(entries)
    decreases |entries|
  {
    if entries != [] {
      var init := entries[..|entries| - 1];
      var e := entries[|entries| - 1];
      var mid := AddAll(store, init);
      AddAllKeys(store, init);
      assert Keys(mid) == Keys(store) + Urls(init);
      AddURLKeys(mid, e.url, e.status, e.timestamp);
      assert Keys(AddAll(store, entries)) == Keys(mid) + {e.url};
      UrlsSnoc(init, e);
      assert init + [e] == entries;
    }
  }

  /** A run of calls never files two top-level rows under the same URL. */
  lemma {:induction false} AddAllKeepsKeysUnique(store: Store, entries: seq<Entry>)
    requires UniqueKeys(store)
    ensures UniqueKeys(AddAll(store, entries))
    decreases |entries|
  {
    if entries != [] {
      var init := entries[..|entries| - 1];
      var e := entries[|entries| - 1];
      AddAllKeepsKeysUnique(store, init);
      AddURLKeys(AddAll(store, init), e.url, e.status, e.timestamp);
    }
  }

  /** A run of calls files each call's row under its own URL, after the rows already
      there and in call order. */
  lemma {:induction false} AddAllRowsOf(store: Store, entries: seq<Entry>, url: string)
    ensures RowsOf(AddAll(store, entries), url) == RowsOf(store, url) + RowsFor(entries, url)
    decreases |entries|
  {
    if entries != [] {
      var init := entries[..|entries| - 1];
      var e := entries[|entries| - 1];
      AddAllRowsOf(store, init, url);
      AddURLRowsOf(AddAll(store, init), e.url, e.status, e.timestamp, url);
    }
  }
}
