/**
 * Which upstream response headers the relay forwards. The three frame-blocking
 * headers are deleted by exact name from the copied header object. The hop-by-hop
 * headers of section 13.5.1 of RFC 2616 are skipped after lower-casing the name.
 * Every other header goes through the response's setHeader, which refuses a name
 * that is not a token or a value with a forbidden character; a refused header is
 * skipped and the loop goes on.
 */
module HeaderPolicy {
  import opened Strings

  datatype Header = Header(name: string, value: string)

  const FrameBlocking: seq<string> := ["x-frame-options", "content-security-policy", "content-security-policy-report-only"]

  const HopByHop: seq<string> := ["transfer-encoding", "connection", "keep-alive"]

  /**
   * The upstream header object as node delivers it: every name lower-cased, and no
   * name twice (an object has each key once).
   */
  predicate NodeHeaders(hs: seq<Header>)
  {
    (forall i :: 0 <= i < |hs| ==> IsLower(hs[i].name)) &&
    (forall i, j :: 0 <= i < j < |hs| ==> hs[i].name != hs[j].name)
  }

  /** `delete headers[key]`. */
  function Without(hs: seq<Header>, key: string): (r: seq<Header>)
    ensures forall h :: h in r <==> h in hs && h.name != key
    ensures NodeHeaders(hs) ==> NodeHeaders(r)
  {
    if hs == [] then []
    else
      var tail := Without(hs[1..], key);
      assert NodeHeaders(hs) ==> NodeHeaders(hs[1..]) by {
        if NodeHeaders(hs) {
          forall i, j | 0 <= i < j < |hs| - 1 ensures hs[1..][i].name != hs[1..][j].name {
            assert hs[1..][i] == hs[i + 1] && hs[1..][j] == hs[j + 1];
          }
        }
      }
      if hs[0].name == key then tail
      else
        assert NodeHeaders(hs) ==> forall h :: h in tail ==> h.name != hs[0].name by {
          if NodeHeaders(hs) {
            forall h | h in tail ensures h.name != hs[0].name {
              var j :| 0 <= j < |hs[1..]| && hs[1..][j] == h;
              assert hs[j + 1] == h;
            }
          }
        }
        [hs[0]] + tail
  }

  /** The three `delete` statements. */
  function StripFrameBlocking(hs: seq<Header>): (r: seq<Header>)
    ensures forall h :: h in r <==> h in hs && h.name !in FrameBlocking
    ensures NodeHeaders(hs) ==> NodeHeaders(r)
  {
    Without(Without(Without(hs, FrameBlocking[0]), FrameBlocking[1]), FrameBlocking[2])
  }

  /** The hop-by-hop test, made on the lower-cased name, so it ignores letter case. */
  predicate IsHopByHop(name: string)
    ensures IsHopByHop(name) <==> ToLower(ToLower(name)) in HopByHop
  {
    ToLowerIsLower(name);
    LowerOfLower(ToLower(name));
    ToLower(name) in HopByHop
  }

  /** tchar of section 3.2.6 of RFC 7230. */
  predicate IsTokenChar(c: char)
  {
    ('A' <= c <= 'Z') || ('a' <= c <= 'z') || ('0' <= c <= '9') ||
    c in {'!', '#', '$', '%', '&', '\'', '*', '+', '-', '.', '^', '_', '`', '|', '~'}
  }

  /** Names setHeader accepts: a non-empty token. */
  predicate ValidHeaderName(name: string)
  {
    |name| > 0 && forall i :: 0 <= i < |name| ==> IsTokenChar(name[i])
  }

  /** Values setHeader accepts: tab, visible ASCII, space and the bytes 0x80 to 0xFF. */
  predicate ValidHeaderValue(value: string)
  {
    forall i :: 0 <= i < |value| ==>
      value[i] == '\t' || (' ' <= value[i] <= '~') || ('\U{80}' <= value[i] <= '\U{FF}')
  }

  /** setHeader does not throw for this header. */
  predicate Accepted(h: Header)
  {
    ValidHeaderName(h.name) && ValidHeaderValue(h.value)
  }

  /** A header the relay passes on: not deleted, not hop-by-hop, accepted by setHeader. */
  predicate Passes(h: Header)
  {
    h.name !in FrameBlocking && !IsHopByHop(h.name) && Accepted(h)
  }

  /**
   * The outgoing headers after the setHeader loop has run over `hs`, starting from the
   * headers `out` the response already held. The response keys its headers by the
   * lower-cased name and keeps the name as given.
   */
  function Forwarded(out: map<string, Header>, hs: seq<Header>): (r: map<string, Header>)
    ensures out.Keys <= r.Keys
    decreases |hs|
  {
    if hs == [] then out
    else
      var prev := Forwarded(out, hs[..|hs| - 1]);
      var h := hs[|hs| - 1];
      if IsHopByHop(h.name) || !Accepted(h) then prev else prev[ToLower(h.name) := h]
  }

  /** Every entry the loop leaves is the old one, or a header of `hs` it stored under that key. */
  lemma {:induction false} ForwardedFrom(out: map<string, Header>, hs: seq<Header>, k: string)
    requires k in Forwarded(out, hs)
    ensures (k in out && Forwarded(out, hs)[k] == out[k]) || SetFrom(hs, k, Forwarded(out, hs)[k])
    decreases |hs|
  {
    if hs != [] {
      var init := hs[..|hs| - 1];
      var h := hs[|hs| - 1];
      var v := Forwarded(out, hs)[k];
      if !IsHopByHop(h.name) && Accepted(h) && k == ToLower(h.name) {
        assert hs[|hs| - 1] == v && Offered(v, k);
      } else {
        assert Forwarded(out, hs) == Forwarded(out, init) || Forwarded(out, hs) == Forwarded(out, init)[ToLower(h.name) := h];
        ForwardedFrom(out, init, k);
        if SetFrom(init, k, v) {
          var i :| 0 <= i < |init| && init[i] == v && Offered(v, k);
          assert hs[i] == v;
        }
      }
    }
  }

  /** `h` is a header the setHeader loop stores under key `k`. */
  predicate Offered(h: Header, k: string)
  {
    ToLower(h.name) == k && !IsHopByHop(h.name) && Accepted(h)
  }

  /** Some header of `hs` is one the loop stores under `k`, and it is `v`. */
  predicate SetFrom(hs: seq<Header>, k: string, v: Header)
  {
    exists i :: 0 <= i < |hs| && hs[i] == v && Offered(v, k)
  }

  /**
   * What the relay sends for upstream headers `hs`: the deletes, then the loop. No
   * entry is removed, and every entry is either the one the response held before or
   * an upstream header that passes all three filters, stored under its lower-cased name.
   */
  function Relayed(out: map<string, Header>, hs: seq<Header>): (r: map<string, Header>)
    ensures out.Keys <= r.Keys
    ensures forall k :: k in r ==>
      (k in out && r[k] == out[k]) || (r[k] in hs && Passes(r[k]) && ToLower(r[k].name) == k)
  {
    var ws := StripFrameBlocking(hs);
    var r := Forwarded(out, ws);
    assert forall k :: k in r && !(k in out && r[k] == out[k]) ==> r[k] in hs && Passes(r[k]) && ToLower(r[k].name) == k by {
      forall k | k in r && !(k in out && r[k] == out[k])
        ensures r[k] in hs && Passes(r[k]) && ToLower(r[k].name) == k
      {
        ForwardedFrom(out, ws, k);
        var i :| 0 <= i < |ws| && ws[i] == r[k] && Offered(r[k], k);
        assert ws[i] in ws;
      }
    }
    r
  }

  // ---------- properties ----------

  /** The loop after one more header. */
  lemma ForwardedPrefix(out: map<string, Header>, ws: seq<Header>, i: nat)
    requires i < |ws|
    ensures Forwarded(out, ws[..i + 1]) ==
      if IsHopByHop(ws[i].name) || !Accepted(ws[i]) then Forwarded(out, ws[..i])
      else Forwarded(out, ws[..i])[ToLower(ws[i].name) := ws[i]]
  {
    assert ws[..i + 1][..i] == ws[..i];
  }

  /**
   * What the loop leaves under one key: the key is there iff it was before or a
   * header of that name is neither hop-by-hop nor rejected, and then it holds that
   * header; otherwise the old entry stays.
   */
  predicate KeyForwarded(out: map<string, Header>, ws: seq<Header>, k: string)
  {
    (k in Forwarded(out, ws) <==>
      k in out || exists i :: 0 <= i < |ws| && ws[i].name == k && !IsHopByHop(k) && Accepted(ws[i])) &&
    (forall i :: 0 <= i < |ws| && ws[i].name == k && !IsHopByHop(k) && Accepted(ws[i]) ==>
      Forwarded(out, ws)[k] == ws[i]) &&
    ((forall i :: 0 <= i < |ws| && ws[i].name == k ==> IsHopByHop(k) || !Accepted(ws[i])) && k in out ==>
      Forwarded(out, ws)[k] == out[k])
  }

  /** The loop over node's header objects, key by key. */
  lemma {:induction false} ForwardedAt(out: map<string, Header>, ws: seq<Header>, k: string)
    requires NodeHeaders(ws)
    ensures KeyForwarded(out, ws, k)
    decreases |ws|
  {
    if ws != [] {
      var n := |ws| - 1;
      var init := ws[..n];
      assert NodeHeaders(init) by {
        forall i, j | 0 <= i < j < n ensures init[i].name != init[j].name {
          assert init[i] == ws[i] && init[j] == ws[j];
        }
      }
      ForwardedAt(out, init, k);
      if ws[n].name == k {
        ForwardedAtSameName(out, ws, k);
      } else {
        ForwardedAtOtherName(out, ws, k);
      }
    }
  }

  lemma ForwardedAtOtherName(out: map<string, Header>, ws: seq<Header>, k: string)
    requires ws != [] && NodeHeaders(ws) && ws[|ws| - 1].name != k
    requires KeyForwarded(out, ws[..|ws| - 1], k)
    ensures KeyForwarded(out, ws, k)
  {
    var n := |ws| - 1;
    var init := ws[..n];
    LastHeaderOtherKey(out, ws, k);
    if exists i :: 0 <= i < |ws| && ws[i].name == k && !IsHopByHop(k) && Accepted(ws[i]) {
      var i :| 0 <= i < |ws| && ws[i].name == k && !IsHopByHop(k) && Accepted(ws[i]);
      assert i < n && init[i] == ws[i];
    }
    forall i | 0 <= i < n
      ensures init[i] == ws[i]
    {
    }
  }

  /** The last header of the loop leaves every other key as it was. */
  lemma LastHeaderOtherKey(out: map<string, Header>, ws: seq<Header>, k: string)
    requires ws != [] && IsLower(ws[|ws| - 1].name) && ws[|ws| - 1].name != k
    ensures k in Forwarded(out, ws) <==> k in Forwarded(out, ws[..|ws| - 1])
    ensures k in Forwarded(out, ws) ==> Forwarded(out, ws)[k] == Forwarded(out, ws[..|ws| - 1])[k]
  {
    LowerOfLower(ws[|ws| - 1].name);
  }

  lemma ForwardedAtSameName(out: map<string, Header>, ws: seq<Header>, k: string)
    requires ws != [] && NodeHeaders(ws) && ws[|ws| - 1].name == k
    requires KeyForwarded(out, ws[..|ws| - 1], k)
    ensures KeyForwarded(out, ws, k)
  {
    var n := |ws| - 1;
    var h := ws[n];
    LowerOfLower(h.name);
    assert forall i :: 0 <= i < n ==> ws[..n][i] == ws[i];
    assert forall i :: 0 <= i < n ==> ws[i].name != k;
  }

  /** What the relay forwards under one key: exactly the passing upstream header of that name, else what was there. */
  lemma RelayedAt(out: map<string, Header>, hs: seq<Header>, k: string)
    requires NodeHeaders(hs)
    ensures k in Relayed(out, hs) <==> k in out || exists i :: 0 <= i < |hs| && hs[i].name == k && Passes(hs[i])
    ensures forall i :: 0 <= i < |hs| && hs[i].name == k && Passes(hs[i]) ==> Relayed(out, hs)[k] == hs[i]
    ensures (forall i :: 0 <= i < |hs| && hs[i].name == k ==> !Passes(hs[i])) && k in out ==>
      Relayed(out, hs)[k] == out[k]
  {
    var ws := StripFrameBlocking(hs);
    ForwardedAt(out, ws, k);
    forall i | 0 <= i < |hs| && hs[i].name == k && Passes(hs[i])
      ensures exists j :: 0 <= j < |ws| && ws[j] == hs[i]
    {
      assert hs[i] in ws;
    }
    forall j | 0 <= j < |ws| ensures ws[j] in hs && ws[j].name !in FrameBlocking {
      assert ws[j] in ws;
    }
  }

  lemma HopByHopNamesAreLower()
    ensures forall k :: k in HopByHop ==> IsLower(k)
  {
    assert IsLower(HopByHop[0]) && IsLower(HopByHop[1]) && IsLower(HopByHop[2]);
  }

  /** A header named by one of the six blocked names never passes. */
  lemma BlockedNameNeverPasses(h: Header)
    requires h.name in FrameBlocking || h.name in HopByHop
    ensures !Passes(h)
  {
    if h.name in HopByHop {
      HopByHopNamesAreLower();
      LowerOfLower(h.name);
    }
  }

  /**
   * None of the six blocked names is added by the relay: under those keys the
   * response holds only what it held before the upstream headers were copied.
   */
  lemma BlockedNeverForwarded(out: map<string, Header>, hs: seq<Header>, k: string)
    requires NodeHeaders(hs)
    requires k in FrameBlocking || k in HopByHop
    ensures k in Relayed(out, hs) <==> k in out
    ensures k in out ==> Relayed(out, hs)[k] == out[k]
  {
    RelayedAt(out, hs, k);
    forall i | 0 <= i < |hs| && hs[i].name == k ensures !Passes(hs[i]) {
      BlockedNameNeverPasses(hs[i]);
    }
  }

  /** Each other upstream header is forwarded unchanged exactly when setHeader accepts it, whatever the others are. */
  lemma OthersForwardedUnlessRejected(out: map<string, Header>, hs: seq<Header>, i: nat)
    requires NodeHeaders(hs) && i < |hs|
    requires hs[i].name !in FrameBlocking && hs[i].name !in HopByHop
    ensures Accepted(hs[i]) ==> hs[i].name in Relayed(out, hs) && Relayed(out, hs)[hs[i].name] == hs[i]
    ensures !Accepted(hs[i]) ==>
      (hs[i].name in Relayed(out, hs) <==> hs[i].name in out) &&
      (hs[i].name in out ==> Relayed(out, hs)[hs[i].name] == out[hs[i].name])
  {
    var k := hs[i].name;
    RelayedAt(out, hs, k);
    LowerOfLower(k);
    forall j | 0 <= j < |hs| && hs[j].name == k ensures j == i {}
  }

  /** The hop-by-hop names are never added, whatever the letter case of the upstream names. */
  lemma {:induction false} ForwardedKeepsHopByHop(out: map<string, Header>, ws: seq<Header>, k: string)
    requires k in HopByHop
    ensures k in Forwarded(out, ws) <==> k in out
    ensures k in out ==> Forwarded(out, ws)[k] == out[k]
    decreases |ws|
  {
    if ws != [] {
      ForwardedKeepsHopByHop(out, ws[..|ws| - 1], k);
    }
  }

  lemma HopByHopNeverForwarded(out: map<string, Header>, hs: seq<Header>, k: string)
    requires k in HopByHop
    ensures k in Relayed(out, hs) <==> k in out
    ensures k in out ==> Relayed(out, hs)[k] == out[k]
  {
    ForwardedKeepsHopByHop(out, StripFrameBlocking(hs), k);
  }

  /**
   * The frame-blocking deletes match names exactly and so rely on node lower-casing
   * the upstream names: a header spelt `X-Frame-Options` would survive them.
   */
  lemma FrameBlockingDeleteIsExact(h: Header)
    requires h == Header("X-Frame-Options", "DENY")
    ensures Relayed(map[], [h]) == map[FrameBlocking[0] := h]
  {
    MixedCaseNameSurvivesDeletes(h);
    MixedCaseNameLowered(h);
    MixedCaseHeaderAccepted(h);
    ForwardedSingle(map[], h);
  }

  lemma ForwardedSingle(out: map<string, Header>, h: Header)
    ensures Forwarded(out, [h]) == if IsHopByHop(h.name) || !Accepted(h) then out else out[ToLower(h.name) := h]
  {
    assert [h][..0] == [];
  }

  lemma MixedCaseHeaderAccepted(h: Header)
    requires h == Header("X-Frame-Options", "DENY")
    ensures Accepted(h)
  {
    forall i | 0 <= i < |h.name| ensures IsTokenChar(h.name[i]) {}
    forall i | 0 <= i < |h.value| ensures ' ' <= h.value[i] <= '~' {}
  }

  lemma MixedCaseNameSurvivesDeletes(h: Header)
    requires h.name == "X-Frame-Options"
    ensures StripFrameBlocking([h]) == [h]
  {
    assert h.name[0] == 'X';
    assert FrameBlocking[0][0] == 'x' && FrameBlocking[1][0] == 'c' && FrameBlocking[2][0] == 'c';
    assert [h][1..] == [];
    assert Without([], FrameBlocking[0]) == [];
    assert Without([h], FrameBlocking[0]) == [h];
    assert Without([h], FrameBlocking[1]) == [h];
    assert Without([h], FrameBlocking[2]) == [h];
  }

  lemma MixedCaseNameLowered(h: Header)
    requires h.name == "X-Frame-Options"
    ensures ToLower(h.name) == FrameBlocking[0] && !IsHopByHop(h.name)
  {
    var low := ToLower(h.name);
    assert |low| == |FrameBlocking[0]|;
    forall i | 0 <= i < |low| ensures low[i] == FrameBlocking[0][i] {
      assert low[i] == LowerChar(h.name[i]);
    }
    assert low == FrameBlocking[0];
    assert low !in HopByHop by {
      assert low[0] == 'x';
    }
  }
}
