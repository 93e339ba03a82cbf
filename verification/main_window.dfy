/** The logic of the window's event handlers: validating the URL list, checking each
    URL and filing the reports in the results tree. The text buffer is the string
    `text`, the HTTP request of each URL is an `Outcome` supplied by the caller, and
    each `DateTime.Now` reading is a `clock` string supplied by the caller. */
module MainWindow {
  import opened Text
  import opened UrlPattern
  import opened ResultStore

  /** What one `ValidateURLs` call produces: its return value, and the indices of the
      lines that fail the pattern, which it tries to paint bold red (only the tag of
      the first call on a non-empty buffer is accepted by the tag table, so only that
      call paints). */
  datatype Verdict = Verdict(valid: bool, flagged: set<nat>)

  /** The URL list as both handlers read it: the buffer text trimmed, then split on
      every `'\r'` and every `'\n'`. */
  function Lines(text: string): seq<string> {
    SplitLines(Trim(text))
  }

  /** The loop of `ValidateURLs` over the lines. */
  function CheckLines(lines: seq<string>): (v: Verdict)
    ensures v.valid <==> forall i :: 0 <= i < |lines| ==> PatternFound(lines[i])
    ensures forall i: nat :: i in v.flagged <==> i < |lines| && !PatternFound(lines[i])
    decreases |lines|
  {
    if lines == [] then Verdict(true, {})
    else
      var n := |lines| - 1;
      var v := CheckLines(lines[..n]);
      var ok := IsMatch(lines[n]);
      Verdict(v.valid && ok, if ok then v.flagged else v.flagged + {n})
  }

  /** `ValidateURLs`: an empty buffer is refused at once with nothing flagged;
      otherwise the list is valid when every line matches the URL pattern, and the
      lines that do not match are flagged. */
  function ValidateURLs(text: string): (v: Verdict)
    ensures |text| == 0 ==> v == Verdict(false, {})
    ensures |text| > 0 ==>
      (v.valid <==> forall i :: 0 <= i < |Lines(text)| ==> PatternFound(Lines(text)[i]))
    ensures |text| > 0 ==>
      forall i: nat :: i in v.flagged <==> i < |Lines(text)| && !PatternFound(Lines(text)[i])
  {
    if |text| == 0 then Verdict(false, {})
    else CheckLines(Lines(text))
  }

  /** The list is accepted exactly when no line is flagged. */
  lemma ValidIffNothingFlagged(text: string)
    requires |text| > 0
    ensures ValidateURLs(text).valid <==> ValidateURLs(text).flagged == {}
  {
    var v := ValidateURLs(text);
    if !v.valid {
      var i :| 0 <= i < |Lines(text)| && !PatternFound(Lines(text)[i]);
      assert (i as nat) in v.flagged;
    }
  }

  /** A buffer that holds only white space trims to one empty line, which is refused
      and flagged. */
  lemma BlankTextRejected(text: string)
    requires |text| > 0
    requires forall k :: 0 <= k < |text| ==> IsWhiteSpace(text[k])
    ensures ValidateURLs(text) == Verdict(false, {0})
  {
    TrimAllWhiteSpace(text);
    assert Lines(text) == [[]];
    EmptyDoesNotMatch();
    var v := ValidateURLs(text);
    assert 0 in v.flagged;
    assert v.flagged == {0};
  }

  /** Two line breaks in a row in the trimmed text (a Windows `"\r\n"` line end, or a
      blank line) produce an empty line, so the whole list is refused. */
  lemma AdjacentBreaksRejected(text: string, p: int)
    requires 0 <= p && p + 1 < |Trim(text)|
    requires IsLineBreak(Trim(text)[p]) && IsLineBreak(Trim(text)[p + 1])
    ensures !ValidateURLs(text).valid
    ensures exists q: nat :: 1 <= q && q in ValidateURLs(text).flagged
  {
    AdjacentBreaksGiveEmptyPiece(Trim(text), p);
    var q :| 1 <= q < |Lines(text)| && Lines(text)[q] == [];
    EmptyDoesNotMatch();
    assert (q as nat) in ValidateURLs(text).flagged;
  }

  /** What one HTTP request of `CheckURLs` comes to: a response, a `WebException`
      (caught), or any other exception (not caught; it ends the handler). A reply with
      a status of 400 or more is a `WebError`: `GetResponse` throws for it and returns
      no response. */
  datatype Outcome = Responded(statusName: string) | WebError(message: string) | Unhandled

  /** The `status` variable after a request: the status code's name on a response,
      cleared on a `WebException`. */
  function StatusAfter(o: Outcome): string {
    if o.Responded? then o.statusName else ""
  }

  /** The `statusDescription` variable after the requests `os`: the message of the
      latest `WebException`, and empty until there is one. It is never reset. */
  function LastErrorMessage(os: seq<Outcome>): string
    decreases |os|
  {
    if os == [] then ""
    else if os[|os| - 1].WebError? then os[|os| - 1].message
    else LastErrorMessage(os[..|os| - 1])
  }

  /** The status text filed for the `i`-th URL. */
  function Report(os: seq<Outcome>, i: nat): string
    requires i < |os|
  {
    Trim(StatusAfter(os[i]) + " " + LastErrorMessage(os[..i + 1]))
  }

  /** How many URLs `CheckURLs` gets through: all of them, or those before the
      first request that throws an exception other than `WebException`. */
  function Handled(os: seq<Outcome>): (n: nat)
    ensures n <= |os|
    ensures forall k :: 0 <= k < n ==> !os[k].Unhandled?
    ensures n < |os| ==> os[n].Unhandled?
    decreases |os|
  {
    if os == [] then 0
    else if os[0].Unhandled? then 0
    else 1 + Handled(os[1..])
  }

  /** `CheckURLs`: requests each line of the list in order and files one report per
      line under that line's URL. */
  method CheckURLs(store: Store, text: string, outcomes: seq<Outcome>, clocks: seq<string>)
    returns (entries: seq<Entry>, tree: Store)
    requires |outcomes| == |Lines(text)| && |clocks| == |Lines(text)|
    ensures |entries| == Handled(outcomes)
    ensures forall k :: 0 <= k < |entries| ==>
      entries[k] == Entry(Lines(text)[k], Report(outcomes, k), clocks[k])
    ensures tree == AddAll(store, Filed(Lines(text), outcomes, clocks, Handled(outcomes)))
  {
    var urls := Lines(text);
    var status := "";
    var statusDescription := "";
    entries := [];
    tree := store;
    var i := 0;
    while i < |urls| && !outcomes[i].Unhandled?
      invariant 0 <= i <= |urls|
      invariant i <= Handled(outcomes)
      invariant statusDescription == LastErrorMessage(outcomes[..i])
      invariant |entries| == i
      invariant entries == Filed(urls, outcomes, clocks, i)
      invariant tree == AddAll(store, entries)
    {
      var o := outcomes[i];
      assert i + 1 <= Handled(outcomes);
      if o.Responded? {
        status := o.statusName;
      } else {
        status := "";
        statusDescription := o.message;
      }
      MessageStep(outcomes, i);
      var e := Entry(urls[i], Trim(status + " " + statusDescription), clocks[i]);
      AddAllStep(store, entries, e);
      tree := AddURL(tree, e.url, e.status, e.timestamp);
      entries := entries + [e];
      i := i + 1;
    }
    assert i == Handled(outcomes);
    FiledAt(urls, outcomes, clocks, i);
  }

  /** The reports of the first `n` lines, in line order. */
  function Filed(urls: seq<string>, outcomes: seq<Outcome>, clocks: seq<string>, n: nat): seq<Entry>
    requires n <= |urls| && n <= |outcomes| && n <= |clocks|
  {
    if n == 0 then []
    else Filed(urls, outcomes, clocks, n - 1) + [Entry(urls[n - 1], Report(outcomes, n - 1), clocks[n - 1])]
  }

  lemma {:induction false} FiledAt(urls: seq<string>, outcomes: seq<Outcome>, clocks: seq<string>, n: nat)
    requires n <= |urls| && n <= |outcomes| && n <= |clocks|
    ensures |Filed(urls, outcomes, clocks, n)| == n
    ensures forall k :: 0 <= k < n ==>
      Filed(urls, outcomes, clocks, n)[k] == Entry(urls[k], Report(outcomes, k), clocks[k])
  {
    if n > 0 {
      FiledAt(urls, outcomes, clocks, n - 1);
      var f := Filed(urls, outcomes, clocks, n - 1);
      var e := Entry(urls[n - 1], Report(outcomes, n - 1), clocks[n - 1]);
      assert Filed(urls, outcomes, clocks, n) == f + [e];
      forall k | 0 <= k < n
        ensures (f + [e])[k] == Entry(urls[k], Report(outcomes, k), clocks[k])
      {
        if k < n - 1 {
          assert (f + [e])[k] == f[k];
        }
      }
    }
  }

  lemma MessageStep(os: seq<Outcome>, i: nat)
    requires i < |os|
    ensures LastErrorMessage(os[..i + 1]) ==
      if os[i].WebError? then os[i].message else LastErrorMessage(os[..i])
  {
    assert os[..i + 1][..i] == os[..i];
  }

  lemma AddAllStep(store: Store, entries: seq<Entry>, e: Entry)
    ensures AddAll(store, entries + [e]) == AddURL(AddAll(store, entries), e.url, e.status, e.timestamp)
  {
    assert (entries + [e])[..|entries|] == entries;
  }

  /** A response that comes before any `WebException` reports the status name alone. */
  lemma ReportBeforeAnyError(os: seq<Outcome>, i: nat)
    requires i < |os| && os[i].Responded?
    requires forall k :: 0 <= k <= i ==> !os[k].WebError?
    ensures Report(os, i) == Trim(os[i].statusName)
  {
    NoErrorNoMessage(os[..i + 1]);
    var name := os[i].statusName;
    assert name + " " + "" == name + " ";
    TrimThenSpace(name);
  }

  /** A response that comes after a `WebException` reports the status name followed by
      that earlier exception's message: the description is never cleared. */
  lemma ReportAfterError(os: seq<Outcome>, j: nat, i: nat)
    requires j < i < |os|
    requires os[j].WebError? && os[i].Responded?
    requires forall k :: j < k <= i ==> !os[k].WebError?
    ensures Report(os, i) == Trim(os[i].statusName + " " + os[j].message)
  {
    LatestErrorWins(os[..i + 1], j);
  }

  /** A `WebException` reports its own message alone. */
  lemma ReportOfError(os: seq<Outcome>, i: nat)
    requires i < |os| && os[i].WebError?
    ensures Report(os, i) == Trim(os[i].message)
  {
    var m := os[i].message;
    assert "" + " " + m == [' '] + m;
    assert TrimStart([' '] + m) == TrimStart(m);
  }

  /** A successful response after a timed-out request is filed with the timeout's
      message still attached. */
  lemma StaleMessageExample()
    ensures Report([Responded("OK"), WebError("timed out"), Responded("OK")], 0) == "OK"
    ensures Report([Responded("OK"), WebError("timed out"), Responded("OK")], 2) == "OK timed out"
  {
    var os := [Responded("OK"), WebError("timed out"), Responded("OK")];
    ReportBeforeAnyError(os, 0);
    TrimOfClean("OK");
    ReportAfterError(os, 1, 2);
    TrimOfClean("OK" + " " + "timed out");
  }

  lemma {:induction false} NoErrorNoMessage(os: seq<Outcome>)
    requires forall k :: 0 <= k < |os| ==> !os[k].WebError?
    ensures LastErrorMessage(os) == ""
    decreases |os|
  {
    if os != [] {
      NoErrorNoMessage(os[..|os| - 1]);
    }
  }

  lemma {:induction false} LatestErrorWins(os: seq<Outcome>, j: nat)
    requires j < |os| && os[j].WebError?
    requires forall k :: j < k < |os| ==> !os[k].WebError?
    ensures LastErrorMessage(os) == os[j].message
    decreases |os|
  {
    if j < |os| - 1 {
      LatestErrorWins(os[..|os| - 1], j);
    }
  }

  /** `OnBtnStartClicked`: validates the list and, only when it is valid, checks it. */
  method OnBtnStartClicked(store: Store, text: string, outcomes: seq<Outcome>, clocks: seq<string>)
    returns (entries: seq<Entry>, tree: Store)
    requires |outcomes| == |Lines(text)| && |clocks| == |Lines(text)|
    ensures tree == if ValidateURLs(text).valid
      then AddAll(store, Filed(Lines(text), outcomes, clocks, Handled(outcomes)))
      else store
    ensures |entries| == if ValidateURLs(text).valid then Handled(outcomes) else 0
    ensures forall k :: 0 <= k < |entries| ==>
      entries[k] == Entry(Lines(text)[k], Report(outcomes, k), clocks[k])
  {
    var valid := ValidateURLs(text).valid;
    if valid {
      entries, tree := CheckURLs(store, text, outcomes, clocks);
    } else {
      entries, tree := [], store;
    }
  }
}
