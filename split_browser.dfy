/**
 * The pane-list state of the split browser: an ordered list of panes, each with an
 * id, the url it shows and its flex ratio; the counter pane ids are issued from; the
 * layout direction; and the one slot of browser storage the session is saved to.
 * The DOM the browser renders is not modelled. Every operation that changes the list
 * renders it again, so a pane element with a given id exists exactly when the list
 * holds a pane with that id, and that is how the element lookups are modelled.
 */
module SplitBrowser {
  import opened Wrappers
  import opened Strings

  datatype Pane = Pane(id: int, url: string, size: real)

  /**
   * The object `loadState` gets back from JSON.parse, field by field. A field that is
   * missing (or null) is None.
   */
  datatype Snapshot = Snapshot(panes: Option<seq<Pane>>, isHorizontal: Option<bool>, paneIdCounter: Option<int>)

  /** The `splitBrowserState` storage entry: never written, text JSON.parse rejects, or a parsed snapshot. */
  datatype Stored = Absent | Unparsable | Saved(snapshot: Snapshot)

  /** The part of the browser's state that is saved and restored. */
  datatype Layout = Layout(panes: seq<Pane>, isHorizontal: bool, paneIdCounter: int)

  /** The flex ratio a new pane starts with. */
  const NewPaneSize: real := 1.0

  const WikipediaUrl := "https://en.wikipedia.org"
  const MapUrl := "https://www.openstreetmap.org/export/embed"

  /** The two panes startup adds, with the ids a zero counter issues. */
  function DefaultLayout(): Layout
  {
    Layout([Pane(1, WikipediaUrl, NewPaneSize), Pane(2, MapUrl, NewPaneSize)], true, 2)
  }

  /**
   * Pane ids are distinct, positive and at most the counter, so the next id the
   * counter issues is fresh.
   */
  predicate WellNumbered(l: Layout)
  {
    0 <= l.paneIdCounter &&
    (forall i :: 0 <= i < |l.panes| ==> 1 <= l.panes[i].id <= l.paneIdCounter) &&
    (forall i, j :: 0 <= i < j < |l.panes| ==> l.panes[i].id != l.panes[j].id)
  }

  // ---------- saving and restoring ----------

  /** The snapshot `saveState` writes: every pane's id, url and size, the direction and the counter. */
  function Save(l: Layout): (s: Snapshot)
    ensures l.panes != [] && l.paneIdCounter != 0 ==> Restore(s) == Some(l)
  {
    Snapshot(Some(l.panes), Some(l.isHorizontal), Some(l.paneIdCounter))
  }

  /** The layout `loadState` adopts from a snapshot, or None when it keeps the current one. */
  function Restore(s: Snapshot): (r: Option<Layout>)
    ensures r.Some? <==> s.panes.Some? && s.panes.value != []
    ensures r.Some? ==> r.value.panes == s.panes.value
    ensures r.Some? ==> (!r.value.isHorizontal <==> s.isHorizontal == Some(false))
    ensures r.Some? ==> r.value.paneIdCounter != 0
    ensures r.Some? && s.paneIdCounter.Some? && s.paneIdCounter.value != 0 ==>
      r.value.paneIdCounter == s.paneIdCounter.value
    ensures r.Some? && (s.paneIdCounter.None? || s.paneIdCounter == Some(0)) ==>
      r.value.paneIdCounter == |r.value.panes|
  {
    match s.panes
    case None => None
    case Some(ps) =>
      if |ps| == 0 then None
      else
        var counter := if s.paneIdCounter.Some? && s.paneIdCounter.value != 0 then s.paneIdCounter.value else |ps|;
        Some(Layout(ps, s.isHorizontal != Some(false), counter))
  }

  /** Whether starting from this storage entry restores a saved session. */
  predicate Restorable(stored: Stored)
  {
    stored.Saved? && Restore(stored.snapshot).Some?
  }

  /** A layout with panes and a nonzero counter comes back from its own snapshot exactly. */
  lemma RestoreSave(l: Layout)
    requires l.panes != [] && l.paneIdCounter != 0
    ensures Restore(Save(l)) == Some(l)
  {
  }

  /** Every well-numbered layout with at least one pane survives a save and a restore. */
  lemma SessionRoundTrip(l: Layout)
    requires WellNumbered(l) && l.panes != []
    ensures Restore(Save(l)) == Some(l)
  {
    assert 1 <= l.panes[0].id <= l.paneIdCounter;
    RestoreSave(l);
  }

  /** Saving a restored layout and restoring it again changes nothing. */
  lemma RestoreStable(s: Snapshot)
    requires Restore(s).Some?
    ensures Restore(Save(Restore(s).value)) == Restore(s)
  {
    RestoreSave(Restore(s).value);
  }

  // ---------- the pane list ----------

  /** `panes.findIndex(p => p.id === id)`: the index of the first pane with that id, or -1. */
  function IndexOfId(ps: seq<Pane>, id: int): (i: int)
    ensures -1 <= i < |ps|
    ensures i >= 0 ==> ps[i].id == id && forall k :: 0 <= k < i ==> ps[k].id != id
    ensures i == -1 <==> forall k :: 0 <= k < |ps| ==> ps[k].id != id
  {
    if ps == [] then -1
    else if ps[0].id == id then 0
    else
      var j := IndexOfId(ps[1..], id);
      if j == -1 then -1 else j + 1
  }

  /**
   * The list `removePane(id)` leaves: a list of one pane (or none) is kept; otherwise
   * the first pane with that id, if any, is spliced out.
   */
  function AfterRemove(ps: seq<Pane>, id: int): (r: seq<Pane>)
    ensures |ps| <= 1 || IndexOfId(ps, id) == -1 ==> r == ps
    ensures |ps| > 1 && IndexOfId(ps, id) >= 0 ==>
      |r| == |ps| - 1 &&
      forall k :: 0 <= k < |r| ==> r[k] == if k < IndexOfId(ps, id) then ps[k] else ps[k + 1]
    ensures |ps| >= 1 ==> |r| >= 1
  {
    if |ps| <= 1 then ps
    else
      var i := IndexOfId(ps, id);
      if i == -1 then ps else ps[..i] + ps[i + 1..]
  }

  /** In a list with distinct ids, removing an id drops exactly the pane with that id. */
  lemma RemoveDropsExactlyThatPane(l: Layout, id: int)
    requires WellNumbered(l) && |l.panes| > 1
    ensures forall p :: p in AfterRemove(l.panes, id) <==> p in l.panes && p.id != id
  {
    forall p
      ensures p in AfterRemove(l.panes, id) <==> p in l.panes && p.id != id
    {
      if p in AfterRemove(l.panes, id) {
        RemovedListKeepsOthers(l, id, p);
      }
      if p in l.panes && p.id != id {
        OthersStayInRemovedList(l, id, p);
      }
    }
  }

  lemma RemovedListKeepsOthers(l: Layout, id: int, p: Pane)
    requires WellNumbered(l) && |l.panes| > 1
    requires p in AfterRemove(l.panes, id)
    ensures p in l.panes && p.id != id
  {
    var ps, r, i := l.panes, AfterRemove(l.panes, id), IndexOfId(l.panes, id);
    var k :| 0 <= k < |r| && r[k] == p;
    if i >= 0 {
      var m := if k < i then k else k + 1;
      assert ps[m] == p && m != i;
      if m < i {
        assert ps[m].id != ps[i].id;
      } else {
        assert ps[i].id != ps[m].id;
      }
    }
  }

  lemma OthersStayInRemovedList(l: Layout, id: int, p: Pane)
    requires |l.panes| > 1
    requires p in l.panes && p.id != id
    ensures p in AfterRemove(l.panes, id)
  {
    var ps, r, i := l.panes, AfterRemove(l.panes, id), IndexOfId(l.panes, id);
    var m :| 0 <= m < |ps| && ps[m] == p;
    if i >= 0 {
      assert m != i;
      var k := if m < i then m else m - 1;
      assert r[k] == p;
    }
  }

  /** Removing a pane keeps the ids distinct, positive and within the counter. */
  lemma RemoveKeepsNumbering(l: Layout, id: int)
    requires WellNumbered(l)
    ensures WellNumbered(l.(panes := AfterRemove(l.panes, id)))
  {
    var ps, r, i := l.panes, AfterRemove(l.panes, id), IndexOfId(l.panes, id);
    if |ps| > 1 && i >= 0 {
      forall a, b | 0 <= a < b < |r|
        ensures r[a].id != r[b].id
      {
        var a', b' := if a < i then a else a + 1, if b < i then b else b + 1;
        assert a' < b' && r[a] == ps[a'] && r[b] == ps[b'];
      }
      forall a | 0 <= a < |r|
        ensures 1 <= r[a].id <= l.paneIdCounter
      {
        assert r[a] == ps[if a < i then a else a + 1];
      }
    }
  }

  /** A pane with a fresh id appended after the others keeps the numbering. */
  lemma AddKeepsNumbering(l: Layout, url: string)
    requires WellNumbered(l)
    ensures var id := l.paneIdCounter + 1;
      WellNumbered(Layout(l.panes + [Pane(id, url, NewPaneSize)], l.isHorizontal, id))
  {
    var id := l.paneIdCounter + 1;
    var ps := l.panes + [Pane(id, url, NewPaneSize)];
    forall a, b | 0 <= a < b < |ps|
      ensures ps[a].id != ps[b].id
    {
      if b == |l.panes| {
        assert ps[a] == l.panes[a];
      } else {
        assert ps[a] == l.panes[a] && ps[b] == l.panes[b];
      }
    }
  }

  /** Replacing the url of one pane keeps the numbering. */
  lemma SetUrlKeepsNumbering(l: Layout, i: int, url: string)
    requires WellNumbered(l) && 0 <= i < |l.panes|
    ensures WellNumbered(l.(panes := l.panes[i := l.panes[i].(url := url)]))
  {
    var ps := l.panes[i := l.panes[i].(url := url)];
    assert forall k :: 0 <= k < |ps| ==> ps[k].id == l.panes[k].id;
  }

  // ---------- address bar input ----------

  /**
   * The characters String.prototype.trim removes: WhiteSpace and LineTerminator of
   * section 11.2 and 11.3 of ECMA-262, the space separators of Unicode included.
   */
  predicate IsJsSpace(c: char)
  {
    c == '\t' || c == '\n' || c == '\U{000B}' || c == '\U{000C}' || c == '\r' || c == ' ' ||
    c == '\U{00A0}' || c == '\U{1680}' || ('\U{2000}' <= c <= '\U{200A}') ||
    c == '\U{2028}' || c == '\U{2029}' || c == '\U{202F}' || c == '\U{205F}' ||
    c == '\U{3000}' || c == '\U{FEFF}'
  }

  /** `s` with its leading white space removed. */
  function TrimStart(s: string): (r: string)
    ensures |r| <= |s| && r == s[|s| - |r|..]
    ensures r == [] || !IsJsSpace(r[0])
    ensures forall k :: 0 <= k < |s| - |r| ==> IsJsSpace(s[k])
  {
    if s != [] && IsJsSpace(s[0]) then TrimStart(s[1..]) else s
  }

  /** `s` with its trailing white space removed. */
  function TrimEnd(s: string): (r: string)
    ensures |r| <= |s| && r == s[..|r|]
    ensures r == [] || !IsJsSpace(r[|r| - 1])
    ensures forall k :: |r| <= k < |s| ==> IsJsSpace(s[k])
  {
    if s != [] && IsJsSpace(s[|s| - 1]) then TrimEnd(s[..|s| - 1]) else s
  }

  /**
   * `s.trim()`: the slice of `s` left once the white space at both ends is cut off.
   */
  function Trim(s: string): (r: string)
    ensures r == [] || (!IsJsSpace(r[0]) && !IsJsSpace(r[|r| - 1]))
    ensures r == [] <==> forall k :: 0 <= k < |s| ==> IsJsSpace(s[k])
    ensures exists a, b ::
              0 <= a <= b <= |s| && r == s[a..b] &&
              (forall k :: 0 <= k < a ==> IsJsSpace(s[k])) && (forall k :: b <= k < |s| ==> IsJsSpace(s[k]))
  {
    var t := TrimStart(s);
    var r := TrimEnd(t);
    SliceBetweenSpaces(s, t, r);
    r
  }

  /**
   * Cutting the white space off the front and then off the back leaves a slice between
   * white space that neither begins nor ends with white space.
   */
  lemma SliceBetweenSpaces(s: string, t: string, r: string)
    requires |t| <= |s| && t == s[|s| - |t|..] && forall k :: 0 <= k < |s| - |t| ==> IsJsSpace(s[k])
    requires t == [] || !IsJsSpace(t[0])
    requires |r| <= |t| && r == t[..|r|] && forall k :: |r| <= k < |t| ==> IsJsSpace(t[k])
    requires r == [] || !IsJsSpace(r[|r| - 1])
    ensures r == [] || (!IsJsSpace(r[0]) && !IsJsSpace(r[|r| - 1]))
    ensures r == [] <==> forall k :: 0 <= k < |s| ==> IsJsSpace(s[k])
    ensures exists a, b ::
              0 <= a <= b <= |s| && r == s[a..b] &&
              (forall k :: 0 <= k < a ==> IsJsSpace(s[k])) && (forall k :: b <= k < |s| ==> IsJsSpace(s[k]))
  {
    var a := |s| - |t|;
    var b := a + |r|;
    if r != [] {
      assert r[0] == t[0];
    }
    assert r == [] ==> t == [];
    assert r == s[a..b] by {
      assert t == s[a..] && r == t[..|r|];
    }
    assert forall k :: b <= k < |s| ==> IsJsSpace(s[k]) by {
      forall k | b <= k < |s| ensures IsJsSpace(s[k]) {
        assert s[k] == t[k - a];
      }
    }
    assert 0 <= a <= b <= |s| && r == s[a..b] &&
      (forall k :: 0 <= k < a ==> IsJsSpace(s[k])) && (forall k :: b <= k < |s| ==> IsJsSpace(s[k]));
  }

  /** Text that neither begins nor ends with white space is its own trim. */
  lemma TrimOfTrimmed(s: string)
    requires s == [] || (!IsJsSpace(s[0]) && !IsJsSpace(s[|s| - 1]))
    ensures Trim(s) == s
  {
  }

  const HttpPrefix := "http://"
  const HttpsPrefix := "https://"

  /**
   * The url `loadURL` stores for the text in a pane's address bar, or None when the
   * trimmed text is empty and nothing happens.
   */
  function NormalizeUrl(typed: string): (r: Option<string>)
    ensures r == None <==> forall k :: 0 <= k < |typed| ==> IsJsSpace(typed[k])
    ensures r.Some? ==> StartsWith(r.value, HttpPrefix) || StartsWith(r.value, HttpsPrefix)
    ensures StartsWith(Trim(typed), HttpPrefix) || StartsWith(Trim(typed), HttpsPrefix) ==>
      r == Some(Trim(typed))
    ensures r.Some? ==> |Trim(typed)| <= |r.value| && r.value[|r.value| - |Trim(typed)|..] == Trim(typed)
    ensures r.Some? && !(StartsWith(Trim(typed), HttpPrefix) || StartsWith(Trim(typed), HttpsPrefix)) ==>
      r.value == HttpsPrefix + Trim(typed)
  {
    var url := Trim(typed);
    if url == [] then None
    else if StartsWith(url, HttpPrefix) || StartsWith(url, HttpsPrefix) then Some(url)
    else Some(HttpsPrefix + url)
  }

  /** Normalising a url `loadURL` stored gives the same url back. */
  lemma NormalizeIdempotent(typed: string)
    requires NormalizeUrl(typed).Some?
    ensures NormalizeUrl(NormalizeUrl(typed).value) == NormalizeUrl(typed)
  {
    NormalizeStable(NormalizeUrl(typed).value, Trim(typed));
  }

  /** A prefixed url that ends with a text whose last character is not white space normalises to itself. */
  lemma NormalizeStable(r: string, url: string)
    requires url != [] && !IsJsSpace(url[|url| - 1])
    requires |url| <= |r| && r[|r| - |url|..] == url
    requires StartsWith(r, HttpPrefix) || StartsWith(r, HttpsPrefix)
    ensures NormalizeUrl(r) == Some(r)
  {
    assert r[|r| - 1] == url[|url| - 1] by {
      assert r[|r| - |url|..][|url| - 1] == url[|url| - 1];
    }
    PrefixedBeginsWithH(r);
    NormalizeOfNormalized(r);
  }

  lemma PrefixedBeginsWithH(r: string)
    requires StartsWith(r, HttpPrefix) || StartsWith(r, HttpsPrefix)
    ensures r != [] && r[0] == 'h'
  {
    if StartsWith(r, HttpPrefix) {
      assert r[0] == HttpPrefix[0];
    } else {
      assert r[0] == HttpsPrefix[0];
    }
  }

  /** A url with a prefix and no white space at either end normalises to itself. */
  lemma NormalizeOfNormalized(r: string)
    requires r != [] && !IsJsSpace(r[0]) && !IsJsSpace(r[|r| - 1])
    requires StartsWith(r, HttpPrefix) || StartsWith(r, HttpsPrefix)
    ensures NormalizeUrl(r) == Some(r)
  {
    TrimOfTrimmed(r);
  }

  /** The trim and the `https://` default of `loadURL`, step by step. */
  method AddressBarUrl(typed: string) returns (r: Option<string>)
    ensures r == NormalizeUrl(typed)
  {
    var url := Trim(typed);
    if url == [] {
      return None;
    }
    if !StartsWith(url, HttpPrefix) && !StartsWith(url, HttpsPrefix) {
      url := HttpsPrefix + url;
    }
    return Some(url);
  }

  // ---------- the browser ----------

  class Browser {
    var panes: seq<Pane>
    var paneIdCounter: int
    var isHorizontal: bool
    /** The `splitBrowserState` entry of browser storage. */
    var storage: Stored

    function Current(): Layout
      reads this
    {
      Layout(panes, isHorizontal, paneIdCounter)
    }

    /**
     * Startup as the browser does it: two default panes are added, each addition
     * saving the session, and only then is the saved session loaded. Whatever was
     * stored, the browser shows the default panes and the stored session is gone.
     */
    constructor AsWritten(stored: Stored)
      ensures Current() == DefaultLayout()
      ensures storage == Saved(Save(DefaultLayout()))
    {
      panes, paneIdCounter, isHorizontal, storage := [], 0, true, stored;
      new;
      var first := AddPane(WikipediaUrl);
      var second := AddPane(MapUrl);
      RestoreSave(DefaultLayout());
      LoadState();
    }

    /**
     * Startup, corrected: the saved session is loaded first, and the two default
     * panes are added only when there was none to restore.
     */
    constructor (stored: Stored)
      ensures Restorable(stored) ==> Current() == Restore(stored.snapshot).value && storage == stored
      ensures !Restorable(stored) ==> Current() == DefaultLayout() && storage == Saved(Save(DefaultLayout()))
    {
      panes, paneIdCounter, isHorizontal, storage := [], 0, true, stored;
      new;
      LoadState();
      if panes == [] {
        var first := AddPane(WikipediaUrl);
        var second := AddPane(MapUrl);
      }
    }

    /** `addPane(url)`: issues the next id and appends one pane with it. */
    method AddPane(url: string) returns (id: int)
      modifies this
      ensures id == old(paneIdCounter) + 1 && paneIdCounter == id
      ensures panes == old(panes) + [Pane(id, url, NewPaneSize)]
      ensures isHorizontal == old(isHorizontal)
      ensures storage == Saved(Save(Current()))
      ensures old(WellNumbered(Current())) ==> WellNumbered(Current())
    {
      ghost var before := Current();
      paneIdCounter := paneIdCounter + 1;
      id := paneIdCounter;
      panes := panes + [Pane(id, url, NewPaneSize)];
      if WellNumbered(before) {
        AddKeepsNumbering(before, url);
      }
      SaveState();
    }

    /**
     * `removePane(id)`: the last pane is never removed; otherwise the first pane
     * with that id is spliced out, and the session is saved only when one was.
     */
    method RemovePane(id: int)
      modifies this
      ensures panes == AfterRemove(old(panes), id)
      ensures paneIdCounter == old(paneIdCounter) && isHorizontal == old(isHorizontal)
      ensures storage == if |panes| < |old(panes)| then Saved(Save(Current())) else old(storage)
      ensures old(WellNumbered(Current())) ==> WellNumbered(Current())
    {
      ghost var before := Current();
      if |panes| <= 1 {
        return;
      }
      var i := IndexOfId(panes, id);
      if i != -1 {
        panes := panes[..i] + panes[i + 1..];
        SaveState();
      }
      if WellNumbered(before) {
        RemoveKeepsNumbering(before, id);
      }
    }

    /**
     * `loadURL(id)` with `typed` in that pane's address bar: when the pane exists and
     * the trimmed text is not empty, the pane's url becomes the normalised text and
     * the session is saved; otherwise nothing changes.
     */
    method LoadURL(id: int, typed: string)
      modifies this
      ensures paneIdCounter == old(paneIdCounter) && isHorizontal == old(isHorizontal)
      ensures var i := IndexOfId(old(panes), id);
        if i == -1 || NormalizeUrl(typed).None? then
          panes == old(panes) && storage == old(storage)
        else
          panes == old(panes)[i := old(panes)[i].(url := NormalizeUrl(typed).value)] &&
          storage == Saved(Save(Current()))
      ensures old(WellNumbered(Current())) ==> WellNumbered(Current())
    {
      var i := IndexOfId(panes, id);
      if i == -1 {
        return;
      }
      var normalized := AddressBarUrl(typed);
      if normalized.None? {
        return;
      }
      SetPaneUrl(i, normalized.value);
      SaveState();
    }

    /** `pane.url = url` for the pane at index `i`. */
    method SetPaneUrl(i: nat, url: string)
      requires i < |panes|
      modifies this
      ensures panes == old(panes)[i := old(panes)[i].(url := url)]
      ensures paneIdCounter == old(paneIdCounter) && isHorizontal == old(isHorizontal) && storage == old(storage)
      ensures old(WellNumbered(Current())) ==> WellNumbered(Current())
    {
      if WellNumbered(Current()) {
        SetUrlKeepsNumbering(Current(), i, url);
      }
      panes := panes[i := panes[i].(url := url)];
    }

    /**
     * `loadPDF(id, input)`: when a file was chosen and the pane exists, the pane's
     * stored url becomes empty (the document itself is shown through an object url
     * that is not kept). The session is not saved.
     */
    method LoadPDF(id: int, fileChosen: bool)
      modifies this
      ensures paneIdCounter == old(paneIdCounter) && isHorizontal == old(isHorizontal)
      ensures storage == old(storage)
      ensures var i := IndexOfId(old(panes), id);
        if !fileChosen || i == -1 then panes == old(panes)
        else panes == old(panes)[i := old(panes)[i].(url := "")]
      ensures old(WellNumbered(Current())) ==> WellNumbered(Current())
    {
      if !fileChosen {
        return;
      }
      var i := IndexOfId(panes, id);
      if i == -1 {
        return;
      }
      if WellNumbered(Current()) {
        SetUrlKeepsNumbering(Current(), i, "");
      }
      panes := panes[i := panes[i].(url := "")];
    }

    /** `toggleLayout()`: flips the direction and saves the session. */
    method ToggleLayout()
      modifies this
      ensures isHorizontal == !old(isHorizontal)
      ensures panes == old(panes) && paneIdCounter == old(paneIdCounter)
      ensures storage == Saved(Save(Current()))
    {
      isHorizontal := !isHorizontal;
      SaveState();
    }

    /** Toggling the layout twice gives the direction back. */
    method ToggleTwice()
      modifies this
      ensures Current() == old(Current())
      ensures storage == Saved(Save(Current()))
    {
      ToggleLayout();
      ToggleLayout();
    }

    /** `saveState()`: writes the current layout to storage. */
    method SaveState()
      modifies this
      ensures storage == Saved(Save(Current()))
      ensures Current() == old(Current())
    {
      storage := Saved(Snapshot(Some(panes), Some(isHorizontal), Some(paneIdCounter)));
    }

    /**
     * `loadState()`: adopts the stored snapshot when it has at least one pane; an
     * absent or unparsable entry, or a snapshot without panes, changes nothing.
     */
    method LoadState()
      modifies this
      ensures storage == old(storage)
      ensures Current() == if Restorable(old(storage)) then Restore(old(storage).snapshot).value else old(Current())
    {
      match storage
      case Saved(s) =>
        if s.panes.Some? && |s.panes.value| > 0 {
          panes := s.panes.value;
          isHorizontal := s.isHorizontal != Some(false);
          paneIdCounter := if s.paneIdCounter.Some? && s.paneIdCounter.value != 0 then s.paneIdCounter.value else |panes|;
        }
      case Absent =>
      case Unparsable =>
    }
  }

  /**
   * A stored one-pane session: startup as written shows the default panes instead,
   * while the corrected startup shows the session.
   */
  method SessionLostAtStartup() returns (saved: Layout, shownAsWritten: Layout, shownCorrected: Layout)
    ensures WellNumbered(saved)
    ensures shownAsWritten == DefaultLayout() && shownAsWritten != saved
    ensures shownCorrected == saved
  {
    saved := Layout([Pane(3, HttpsPrefix + "example.org", NewPaneSize)], false, 3);
    var asWritten := new Browser.AsWritten(Saved(Save(saved)));
    shownAsWritten := asWritten.Current();
    var corrected := new Browser(Saved(Save(saved)));
    RestoreSave(saved);
    shownCorrected := corrected.Current();
  }
}
