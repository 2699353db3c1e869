/** Extracting a file's time-to-live from the components of its path. */
module Ttl {
  import opened Wrappers
  import opened Paths

  /** The literal that a TTL component begins with. */
  const Marker: string := "ttl="

  predicate HasMarker(text: string)
  {
    |Marker| <= |text| && text[..|Marker|] == Marker
  }

  /** `parse_ttl`: the duration after the `ttl=` prefix, as the duration
      parser reads it; `None` when the prefix is missing or the rest does not parse. */
  function ParseTtl(text: string, parseDuration: string -> Option<nat>): (r: Option<nat>)
    ensures r.Some? ==> HasMarker(text)
  {
    if HasMarker(text) then parseDuration(text[|Marker|..]) else None
  }

  /** Whatever follows the prefix is handed to the duration parser unchanged. */
  lemma ParseTtlOfMarked(rest: string, parseDuration: string -> Option<nat>)
    ensures ParseTtl(Marker + rest, parseDuration) == parseDuration(rest)
  {
    assert (Marker + rest)[..|Marker|] == Marker;
    assert (Marker + rest)[|Marker|..] == rest;
  }

  /** The TTL one component contributes: only `Normal` components are consulted. */
  function ComponentTtl(c: Component, parseDuration: string -> Option<nat>): (r: Option<nat>)
    ensures r.Some? ==> c.Normal? && HasMarker(c.name)
  {
    match c
    case Normal(name) => ParseTtl(name, parseDuration)
    case _ => None
  }

  /** The TTL of `path`: that of the component nearest the filename that yields one. */
  function NearestTtl(path: Path, parseDuration: string -> Option<nat>): (r: Option<nat>)
    ensures r.Some? ==> exists i :: 0 <= i < |path| && path[i].Normal? && ComponentTtl(path[i], parseDuration) == r
    decreases |path|
  {
    if path == [] then None
    else match ComponentTtl(path[|path| - 1], parseDuration)
      case Some(ttl) => Some(ttl)
      case None => NearestTtl(path[..|path| - 1], parseDuration)
  }

  /** Component `i` yields a TTL and no component nearer the filename does. */
  ghost predicate NearestMarkerAt(path: Path, parseDuration: string -> Option<nat>, i: int)
  {
    && 0 <= i < |path|
    && ComponentTtl(path[i], parseDuration).Some?
    && forall j :: i < j < |path| ==> ComponentTtl(path[j], parseDuration) == None
  }

  /** The nearest component that yields a TTL decides it. */
  lemma {:induction false} NearestTtlAtNearestMarker(path: Path, parseDuration: string -> Option<nat>, i: int)
    requires NearestMarkerAt(path, parseDuration, i)
    ensures NearestTtl(path, parseDuration) == ComponentTtl(path[i], parseDuration)
    decreases |path|
  {
    if i < |path| - 1 {
      var init := path[..|path| - 1];
      forall j | i < j < |init|
        ensures ComponentTtl(init[j], parseDuration) == None
      {
        assert init[j] == path[j];
      }
      assert init[i] == path[i];
      NearestTtlAtNearestMarker(init, parseDuration, i);
    }
  }

  /** Whenever a TTL is found, it comes from the nearest component that yields one. */
  lemma {:induction false} NearestTtlHasNearestMarker(path: Path, parseDuration: string -> Option<nat>)
    requires NearestTtl(path, parseDuration).Some?
    ensures exists i :: NearestMarkerAt(path, parseDuration, i)
                        && NearestTtl(path, parseDuration) == ComponentTtl(path[i], parseDuration)
    decreases |path|
  {
    var last := |path| - 1;
    if ComponentTtl(path[last], parseDuration).Some? {
      assert NearestMarkerAt(path, parseDuration, last);
    } else {
      var init := path[..last];
      NearestTtlHasNearestMarker(init, parseDuration);
      var i :| NearestMarkerAt(init, parseDuration, i)
               && NearestTtl(init, parseDuration) == ComponentTtl(init[i], parseDuration);
      assert init[i] == path[i];
      forall j | i < j < |path|
        ensures ComponentTtl(path[j], parseDuration) == None
      {
        if j < last { assert init[j] == path[j]; }
      }
      assert NearestMarkerAt(path, parseDuration, i);
    }
  }

  /** No TTL is found exactly when no component yields one. */
  lemma {:induction false} NearestTtlNoneIffUnmarked(path: Path, parseDuration: string -> Option<nat>)
    ensures NearestTtl(path, parseDuration) == None
            <==> forall i :: 0 <= i < |path| ==> ComponentTtl(path[i], parseDuration) == None
    decreases |path|
  {
    if path != [] {
      var init := path[..|path| - 1];
      NearestTtlNoneIffUnmarked(init, parseDuration);
      assert forall i :: 0 <= i < |init| ==> init[i] == path[i];
    }
  }

  /** Once a suffix of the path yields a TTL, the components before it are never consulted. */
  lemma {:induction false} NearestTtlIgnoresAncestors(ancestors: Path, rest: Path, parseDuration: string -> Option<nat>)
    requires NearestTtl(rest, parseDuration).Some?
    ensures NearestTtl(ancestors + rest, parseDuration) == NearestTtl(rest, parseDuration)
    decreases |rest|
  {
    var whole := ancestors + rest;
    assert whole[|whole| - 1] == rest[|rest| - 1];
    if ComponentTtl(rest[|rest| - 1], parseDuration).None? {
      assert whole[..|whole| - 1] == ancestors + rest[..|rest| - 1];
      NearestTtlIgnoresAncestors(ancestors, rest[..|rest| - 1], parseDuration);
    }
  }

  /** Components nearer the filename that yield no TTL are skipped. */
  lemma {:induction false} NearestTtlSkipsUnmarked(path: Path, rest: Path, parseDuration: string -> Option<nat>)
    requires forall j :: 0 <= j < |rest| ==> ComponentTtl(rest[j], parseDuration) == None
    ensures NearestTtl(path + rest, parseDuration) == NearestTtl(path, parseDuration)
    decreases |rest|
  {
    if rest == [] {
      assert path + rest == path;
    } else {
      var whole := path + rest;
      assert whole[|whole| - 1] == rest[|rest| - 1];
      assert whole[..|whole| - 1] == path + rest[..|rest| - 1];
      NearestTtlSkipsUnmarked(path, rest[..|rest| - 1], parseDuration);
    }
  }

  /** `root/ttl=10s/ttl=soon/data.bin`: `ttl=soon` does not parse and is skipped,
      so the TTL is that of `ttl=10s`. */
  lemma NearestTtlExample(parseDuration: string -> Option<nat>)
    requires parseDuration("10s") == Some(10)
    requires parseDuration("soon") == None
    ensures NearestTtl([RootDir, Normal("root"), Normal("ttl=10s"), Normal("ttl=soon"), Normal("data.bin")],
                       parseDuration) == Some(10)
  {
    var p := [RootDir, Normal("root"), Normal("ttl=10s"), Normal("ttl=soon"), Normal("data.bin")];
    assert !HasMarker("data.bin") by { assert "data.bin"[..|Marker|][0] != Marker[0]; }
    ParseTtlOfMarked("soon", parseDuration);
    ParseTtlOfMarked("10s", parseDuration);
    assert p[..4] == [RootDir, Normal("root"), Normal("ttl=10s"), Normal("ttl=soon")];
    assert p[..4][..3] == [RootDir, Normal("root"), Normal("ttl=10s")];
    assert "ttl=" + "soon" == "ttl=soon";
    assert "ttl=" + "10s" == "ttl=10s";
  }

  /** `find_ttl`: walks the components from the filename back toward the root and
      returns the first TTL that a `Normal` component yields. */
  method FindTtl(path: Path, parseDuration: string -> Option<nat>) returns (ttl: Option<nat>)
    ensures ttl == NearestTtl(path, parseDuration)
  {
    var i := |path|;
    assert path[..i] == path;
    while i > 0
      invariant 0 <= i <= |path|
      invariant NearestTtl(path[..i], parseDuration) == NearestTtl(path, parseDuration)
    {
      assert path[..i][..i - 1] == path[..i - 1];
      i := i - 1;
      match path[i]
      case Normal(name) =>
        var parsed := ParseTtl(name, parseDuration);
        if parsed.Some? {
          return parsed;
        }
      case _ =>
    }
    return None;
  }
}
