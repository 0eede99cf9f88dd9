/**
 * `make_dedup_key` of src/clangd.cpp: the identity of a compile command is its
 * normalised `directory / file` path with the environment segment after the
 * first `.pio/libdeps/` removed, so that one library source compiled by
 * several environments collapses to one key.
 */
module DedupKey {
  import opened Wrappers

  /** `pat` occurs in `s` starting at `p`. */
  predicate SubstringAt(s: string, pat: string, p: nat) {
    p + |pat| <= |s| && s[p..p + |pat|] == pat
  }

  /** `std::string::find(pat, from)`: the leftmost occurrence at or after `from`. */
  function Find(s: string, pat: string, from: nat): (r: Option<nat>)
    ensures r.Some? ==> from <= r.value && SubstringAt(s, pat, r.value)
    ensures r.Some? ==> forall q: nat :: from <= q < r.value ==> !SubstringAt(s, pat, q)
    ensures r.None? ==> forall q: nat :: from <= q ==> !SubstringAt(s, pat, q)
    decreases |s| - from
  {
    if from + |pat| > |s| then None
    else if s[from..from + |pat|] == pat then Some(from)
    else Find(s, pat, from + 1)
  }

  /** The directory of per-environment library checkouts (`libdeps_marker`). */
  const LibdepsMarker: string := ".pio/libdeps/"

  /** The first occurrence of the marker starts at `pos`. */
  ghost predicate FirstMarkerAt(path: string, pos: nat) {
    SubstringAt(path, LibdepsMarker, pos) && forall q: nat :: q < pos ==> !SubstringAt(path, LibdepsMarker, q)
  }

  /** Removes the segment after the first marker, with its trailing slash. */
  function StripLibdeps(path: string): string {
    match Find(path, LibdepsMarker, 0)
    case None => path
    case Some(pos) =>
      var after := pos + |LibdepsMarker|;
      match Find(path, "/", after)
      case None => path
      case Some(slash) => path[..after] + path[slash + 1..]
  }

  /** `lexically_normal()` of `directory / file`, which this model takes as given. */
  type PathNormaliser = (string, string) -> string

  /** A path without the marker is its own key. */
  lemma StripWithoutMarker(path: string)
    requires forall q: nat :: !SubstringAt(path, LibdepsMarker, q)
    ensures StripLibdeps(path) == path
  {
    match Find(path, LibdepsMarker, 0)
    case None =>
    case Some(pos) =>
      assert false;
  }

  lemma SlashAt(s: string, q: nat)
    requires SubstringAt(s, "/", q)
    ensures s[q] == '/'
  {
    assert s[q..q + 1][0] == s[q];
  }

  /** When no slash ends the segment after the first marker, the path is its own key. */
  lemma StripWithoutSegmentEnd(path: string, pos: nat)
    requires FirstMarkerAt(path, pos)
    requires forall j :: pos + |LibdepsMarker| <= j < |path| ==> path[j] != '/'
    ensures StripLibdeps(path) == path
  {
    var after := pos + |LibdepsMarker|;
    assert Find(path, LibdepsMarker, 0) == Some(pos);
    match Find(path, "/", after)
    case None =>
    case Some(slash) =>
      SlashAt(path, slash);
      assert false;
  }

  /**
   * With the first marker at `pos` and the first slash after it at `slash`,
   * the key is the path with exactly `path[pos + 13..slash + 1]` removed: the
   * segment, which holds no slash, and the slash that ends it.
   */
  lemma StripSegment(path: string, pos: nat, slash: nat)
    requires FirstMarkerAt(path, pos)
    requires pos + |LibdepsMarker| <= slash < |path| && path[slash] == '/'
    requires forall j :: pos + |LibdepsMarker| <= j < slash ==> path[j] != '/'
    ensures StripLibdeps(path) == path[..pos + |LibdepsMarker|] + path[slash + 1..]
    ensures path == StripLibdeps(path)[..pos + |LibdepsMarker|] + path[pos + |LibdepsMarker|..slash + 1] + StripLibdeps(path)[pos + |LibdepsMarker|..]
  {
    var after := pos + |LibdepsMarker|;
    assert Find(path, LibdepsMarker, 0) == Some(pos);
    assert SubstringAt(path, "/", slash);
    forall q: nat | after <= q < slash ensures !SubstringAt(path, "/", q) {
      assert path[q] != '/';
    }
    assert Find(path, "/", after) == Some(slash);
    var key := path[..after] + path[slash + 1..];
    assert key[..after] == path[..after];
    assert key[after..] == path[slash + 1..];
    assert path == path[..after] + path[after..slash + 1] + path[slash + 1..];
  }

  /**
   * The same library file checked out under two environments gets one key:
   * for a path prefix without an earlier marker and environment segments
   * without slashes, both keys are the path with the segment left out.
   */
  lemma EnvironmentsCollapse(prefix: string, env1: string, env2: string, rest: string)
    requires forall q: nat :: q < |prefix| ==> !SubstringAt(prefix + LibdepsMarker, LibdepsMarker, q)
    requires '/' !in env1 && '/' !in env2
    ensures StripLibdeps(prefix + LibdepsMarker + env1 + "/" + rest) == prefix + LibdepsMarker + rest
    ensures StripLibdeps(prefix + LibdepsMarker + env1 + "/" + rest) == StripLibdeps(prefix + LibdepsMarker + env2 + "/" + rest)
  {
    StripOneEnvironment(prefix, env1, rest);
    StripOneEnvironment(prefix, env2, rest);
  }

  lemma StripOneEnvironment(prefix: string, env: string, rest: string)
    requires forall q: nat :: q < |prefix| ==> !SubstringAt(prefix + LibdepsMarker, LibdepsMarker, q)
    requires '/' !in env
    ensures StripLibdeps(prefix + LibdepsMarker + env + "/" + rest) == prefix + LibdepsMarker + rest
  {
    var head := prefix + LibdepsMarker;
    var path := head + env + "/" + rest;
    var pos := |prefix|;
    var after := |head|;
    assert path[pos..pos + |LibdepsMarker|] == LibdepsMarker;
    forall q: nat | q < pos ensures !SubstringAt(path, LibdepsMarker, q) {
      assert !SubstringAt(head, LibdepsMarker, q);
      assert path[q..q + |LibdepsMarker|] == head[q..q + |LibdepsMarker|];
    }
    var slash := after + |env|;
    assert path[slash] == '/';
    forall j | after <= j < slash ensures path[j] != '/' {
      assert path[j] == env[j - after];
    }
    StripSegment(path, pos, slash);
    assert path[..after] == head;
    assert path[slash + 1..] == rest;
  }

  /** The deduplication key of a command whose normalised path `norm` computes. */
  function Key(norm: PathNormaliser, directory: string, file: string): string {
    StripLibdeps(norm(directory, file))
  }
}
