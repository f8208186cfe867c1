/**
 Path normalisation (kernel/src/fs/mod.rs): `canonical_path`, the stricter
 `canonicalize_warexec_path`, and the helpers on canonical paths.
 */
module Paths {
  import opened Bytes
  import opened Errors

  const SLASH: byte := 47
  const DOT: byte := 46
  const MAX_PATH_LEN := 96
  const MAX_COMPONENT_LEN := 31

  const ROOT: str := [SLASH]

  // ---------- splitting and joining ----------

  /** `str::split('/')`. */
  function Split(s: str): (parts: seq<str>)
    ensures |parts| > 0
  {
    if s == [] then [[]]
    else if s[0] == SLASH then [[]] + Split(s[1..])
    else
      var rest := Split(s[1..]);
      [[s[0]] + rest[0]] + rest[1..]
  }

  function JoinAll(parts: seq<str>): (s: str)
    ensures parts != [] ==> |s| > 0 && s[0] == SLASH
  {
    if parts == [] then [] else [SLASH] + parts[0] + JoinAll(parts[1..])
  }

  /** The path made of these components. */
  function PathOf(parts: seq<str>): (s: str)
    ensures |s| > 0 && s[0] == SLASH
  {
    if parts == [] then ROOT else JoinAll(parts)
  }

  predicate NoSlash(c: str) { SLASH !in c }

  lemma {:induction false} SplitPrefix(c: str, tail: str)
    requires NoSlash(c)
    requires tail == [] || tail[0] == SLASH
    ensures Split(c + tail) == if tail == [] then [c] else [c] + Split(tail[1..])
  {
    if c == [] {
      assert c + tail == tail;
    } else {
      SplitPrefix(c[1..], tail);
      assert (c + tail)[1..] == c[1..] + tail;
      assert [c[0]] + c[1..] == c;
    }
  }

  lemma {:induction false} SplitJoin(parts: seq<str>)
    requires forall c | c in parts :: NoSlash(c)
    ensures Split(JoinAll(parts)) == [[]] + parts
  {
    hide Split, JoinAll;
    JoinHead(parts);
    if parts != [] {
      var tail, all := JoinAll(parts[1..]), JoinAll(parts);
      SplitSlash(all);
      assert all[1..] == parts[0] + tail;
      assert parts[0] in parts;
      JoinHead(parts[1..]);
      SplitPrefix(parts[0], tail);
      SplitJoin(parts[1..]);
      if tail != [] {
        SplitSlash(tail);
        assert Split(tail[1..]) == Split(tail)[1..] == parts[1..];
      }
      assert parts == [parts[0]] + parts[1..];
    } else {
      SplitNothing();
    }
  }

  lemma SplitNothing()
    ensures Split([]) == [[]]
  {
  }

  lemma SplitSlash(s: str)
    requires s != [] && s[0] == SLASH
    ensures Split(s) == [[]] + Split(s[1..])
  {
  }

  lemma JoinHead(parts: seq<str>)
    ensures parts == [] <==> JoinAll(parts) == []
    ensures parts != [] ==> JoinAll(parts) == [SLASH] + (parts[0] + JoinAll(parts[1..]))
  {
  }

  // ---------- components ----------

  predicate ComponentByte(b: byte) {
    48 <= b <= 57 || 65 <= b <= 90 || 97 <= b <= 122 || b == DOT || b == 95 || b == 45
  }

  /** `validate_canonical_component`. */
  predicate ValidComponent(c: str) {
    |c| <= MAX_COMPONENT_LEN && forall i | 0 <= i < |c| :: ComponentByte(c[i])
  }

  /** A component that may stand in a canonical path. */
  predicate GoodComponent(c: str) { c != [] && c != [DOT] && c != [DOT, DOT] && ValidComponent(c) }

  /** The components `canonical_path` keeps, or its error at the first bad one. */
  function Kept(parts: seq<str>): (r: Result<seq<str>, FsError>)
    ensures r.Ok? ==> forall c | c in r.value :: GoodComponent(c)
  {
    if parts == [] then Ok([])
    else if parts[0] == [] || parts[0] == [DOT] then Kept(parts[1..])
    else if parts[0] == [DOT, DOT] || !ValidComponent(parts[0]) then Err(InvalidFilename)
    else
      var rest :- Kept(parts[1..]);
      Ok([parts[0]] + rest)
  }

  lemma {:induction false} KeptGood(parts: seq<str>)
    requires forall c | c in parts :: GoodComponent(c)
    ensures Kept(parts) == Ok(parts)
  {
    if parts != [] {
      assert GoodComponent(parts[0]);
      KeptGood(parts[1..]);
      assert parts == [parts[0]] + parts[1..];
    }
  }

  lemma {:induction false} KeptTrailingEmpty(parts: seq<str>)
    ensures Kept(parts + [[]]) == Kept(parts)
  {
    if parts != [] {
      KeptTrailingEmpty(parts[1..]);
      assert (parts + [[]])[1..] == parts[1..] + [[]];
    }
  }

  // ---------- canonical_path ----------

  function Rooted(trimmed: str): str {
    if trimmed != [] && trimmed[0] == SLASH then trimmed else ROOT + trimmed
  }

  function CanonicalPath(path: str): Result<str, FsError> {
    var trimmed := Trim(path);
    if trimmed == [] then Err(InvalidFilename)
    else
      var kept :- Kept(Split(Rooted(trimmed)));
      if |PathOf(kept)| > MAX_PATH_LEN then Err(FilenameTooLong) else Ok(PathOf(kept))
  }

  /** `canonical_path`: the loop over the components computes `CanonicalPath`. */
  method ComputeCanonicalPath(path: str) returns (r: Result<str, FsError>)
    ensures r == CanonicalPath(path)
  {
    hide Kept, JoinAll, Split, Trim, ValidComponent;
    var trimmed := Trim(path);
    if trimmed == [] {
      return Err(InvalidFilename);
    }
    var parts := Split(Rooted(trimmed));
    var result: str := ROOT;
    var first := true;
    ghost var done: seq<str> := [];
    assert parts[0..] == parts;
    assert Kept(parts).Ok? ==> done + Kept(parts).value == Kept(parts).value;
    for i := 0 to |parts|
      invariant result == PathOf(done)
      invariant first <==> done == []
      invariant Completes(Kept(parts), done, Kept(parts[i..]))
    {
      var component := parts[i];
      KeptHead(parts, i);
      if component == [] || component == [DOT] {
        continue;
      }
      if component == [DOT, DOT] {
        return Err(InvalidFilename);
      }
      if !ValidComponent(component) {
        return Err(InvalidFilename);
      }
      if !first {
        result := result + [SLASH];
      }
      JoinAllAppend(done, component);
      JoinHead([]);
      result := result + component;
      first := false;
      CompletesNext(Kept(parts), done, component, Kept(parts[i + 1..]));
      done := done + [component];
    }
    KeptNothing(parts[|parts|..]);
    assert done + [] == done;
    if |result| > MAX_PATH_LEN {
      return Err(FilenameTooLong);
    }
    return Ok(result);
  }

  /** The components kept so far and those of the rest make up the whole result. */
  predicate Completes(whole: Result<seq<str>, FsError>, done: seq<str>, rest: Result<seq<str>, FsError>) {
    whole == if rest.Ok? then Ok(done + rest.value) else rest
  }

  lemma CompletesNext(whole: Result<seq<str>, FsError>, done: seq<str>, c: str, rest: Result<seq<str>, FsError>)
    requires Completes(whole, done, if rest.Ok? then Ok([c] + rest.value) else rest)
    ensures Completes(whole, done + [c], rest)
  {
    assert rest.Ok? ==> done + ([c] + rest.value) == (done + [c]) + rest.value;
  }

  lemma KeptHead(parts: seq<str>, i: nat)
    requires i < |parts|
    ensures var c, rest := parts[i], Kept(parts[i + 1..]);
            Kept(parts[i..]) ==
              if c == [] || c == [DOT] then rest
              else if c == [DOT, DOT] || !ValidComponent(c) then Err(InvalidFilename)
              else if rest.Ok? then Ok([c] + rest.value) else rest
  {
    assert parts[i..][1..] == parts[i + 1..];
  }

  lemma KeptNothing(parts: seq<str>)
    requires parts == []
    ensures Kept(parts) == Ok([])
  {
  }

  lemma {:induction false} JoinAllAppend(parts: seq<str>, c: str)
    ensures JoinAll(parts + [c]) == JoinAll(parts) + [SLASH] + c
  {
    hide JoinAll;
    JoinHead(parts);
    JoinHead(parts + [c]);
    if parts == [] {
      assert (parts + [c])[1..] == [];
      JoinHead([]);
    } else {
      JoinAllAppend(parts[1..], c);
      var rest := JoinAll(parts[1..]);
      assert (parts + [c])[1..] == parts[1..] + [c];
      assert [SLASH] + (parts[0] + (rest + [SLASH] + c)) == [SLASH] + (parts[0] + rest) + [SLASH] + c;
    }
  }

  /** A path with a leading slash, no empty, "." or ".." component, and within the limits. */
  ghost predicate Canonical(p: str) {
    |p| <= MAX_PATH_LEN && exists parts :: IsPathOf(p, parts)
  }

  predicate IsPathOf(p: str, parts: seq<str>) {
    p == PathOf(parts) && forall c | c in parts :: GoodComponent(c)
  }

  lemma {:induction false} PathEnds(parts: seq<str>)
    requires forall c | c in parts :: GoodComponent(c)
    ensures Printable(PathOf(parts)[|PathOf(parts)| - 1])
    ensures IsAscii(PathOf(parts)) && 0 !in PathOf(parts)
  {
    if parts != [] {
      PathEnds(parts[1..]);
      var c := parts[0];
      assert c in parts;
      assert ComponentByte(c[|c| - 1]);
      if parts[1..] == [] {
        assert JoinAll(parts[1..]) == [];
        assert PathOf(parts) == [SLASH] + c + [] == [SLASH] + c;
      } else {
        assert PathOf(parts) == [SLASH] + c + PathOf(parts[1..]);
      }
    }
  }

  /** Canonical paths are plain ASCII without NUL. */
  lemma CanonicalText(p: str)
    requires Canonical(p)
    ensures |p| > 0 && p[0] == SLASH && IsAscii(p) && 0 !in p && ValidUtf8(p)
  {
    var parts :| IsPathOf(p, parts);
    PathEnds(parts);
    AsciiIsUtf8(p);
  }

  lemma CanonicalFixpoint(p: str)
    requires Canonical(p)
    ensures CanonicalPath(p) == Ok(p)
  {
    hide Split, Kept, Trim, JoinAll;
    var parts :| IsPathOf(p, parts);
    PathEnds(parts);
    TrimIdentity(p);
    KeptOfPath(parts);
  }

  /** A path of good components splits back into them. */
  lemma KeptOfPath(parts: seq<str>)
    requires forall c | c in parts :: GoodComponent(c)
    ensures Kept(Split(PathOf(parts))) == Ok(parts)
  {
    if parts == [] {
      KeptOfRoot();
    } else {
      hide Split, JoinAll;
      SplitJoin(parts);
      assert ([[]] + parts)[1..] == parts;
      KeptGood(parts);
    }
  }

  lemma KeptOfRoot()
    ensures Kept(Split(ROOT)) == Ok([])
  {
    var none: seq<str> := [];
    assert Split(ROOT) == none + [[]] + [[]];
    KeptTrailingEmpty(none + [[]]);
    KeptTrailingEmpty(none);
  }

  /**
   `canonical_path` only returns canonical paths, and returns each of them unchanged, so
   it is idempotent and its fixpoints are exactly the canonical paths.
   */
  lemma CanonicalPathExact(path: str)
    ensures var r := CanonicalPath(path);
            r.Ok? ==> Canonical(r.value) && CanonicalPath(r.value) == r
    ensures CanonicalPath(path) == Ok(path) <==> Canonical(path)
  {
    var r := CanonicalPath(path);
    if r.Ok? {
      var kept := Kept(Split(Rooted(Trim(path)))).value;
      assert IsPathOf(r.value, kept);
      CanonicalFixpoint(r.value);
    }
    if Canonical(path) {
      CanonicalFixpoint(path);
    }
  }

  /** The components that count: all but the empty ones and ".". */
  function Significant(parts: seq<str>): seq<str> {
    if parts == [] then []
    else (if parts[0] == [] || parts[0] == [DOT] then [] else [parts[0]]) + Significant(parts[1..])
  }

  predicate AllGood(parts: seq<str>) { forall c | c in parts :: GoodComponent(c) }

  lemma {:induction false} KeptIsSignificant(parts: seq<str>)
    ensures Kept(parts) == if AllGood(Significant(parts)) then Ok(Significant(parts)) else Err(InvalidFilename)
  {
    if parts != [] {
      KeptIsSignificant(parts[1..]);
      var rest := Significant(parts[1..]);
      if parts[0] == [] || parts[0] == [DOT] {
        assert Significant(parts) == [] + rest == rest;
      } else {
        assert Significant(parts) == [parts[0]] + rest;
        AllGoodCons(parts[0], rest);
      }
    }
  }

  lemma AllGoodCons(c: str, rest: seq<str>)
    ensures AllGood([c] + rest) <==> GoodComponent(c) && AllGood(rest)
  {
    var all := [c] + rest;
    assert c in all;
    assert forall x | x in rest :: x in all;
  }

  /** What `canonical_path` makes of a path, and exactly which paths it refuses. */
  lemma CanonicalPathMeaning(path: str)
    ensures var parts := Significant(Split(Rooted(Trim(path))));
            CanonicalPath(path) ==
              if Trim(path) == [] || !AllGood(parts) then Err(InvalidFilename)
              else if |PathOf(parts)| > MAX_PATH_LEN then Err(FilenameTooLong)
              else Ok(PathOf(parts))
  {
    hide Trim, Split, PathOf;
    KeptIsSignificant(Split(Rooted(Trim(path))));
  }

  // ---------- canonicalize_warexec_path ----------

  function TrimSlashes(s: str): (t: str)
    ensures |t| <= |s| && t == s[..|t|]
    ensures forall i | |t| <= i < |s| :: s[i] == SLASH
    ensures t != [] ==> t[|t| - 1] != SLASH
  {
    if s != [] && s[|s| - 1] == SLASH then TrimSlashes(s[..|s| - 1]) else s
  }

  predicate HasDoubleSlash(s: str) {
    exists i | 0 <= i < |s| - 1 :: s[i] == SLASH && s[i + 1] == SLASH
  }

  function StrictParts(parts: seq<str>): (r: Result<seq<str>, FsError>) {
    if parts == [] then Ok([])
    else if !GoodComponent(parts[0]) then Err(InvalidFilename)
    else
      var rest :- StrictParts(parts[1..]);
      Ok([parts[0]] + rest)
  }

  function WarexecPath(path: str, allowTrailingSlash: bool): Result<str, FsError> {
    var trimmed := Trim(path);
    if trimmed == [] || trimmed[0] != SLASH then Err(InvalidFilename)
    else
      var trailing := |trimmed| > 1 && trimmed[|trimmed| - 1] == SLASH;
      if trailing && !allowTrailingSlash then Err(InvalidFilename)
      else
        var normalized := if trailing then TrimSlashes(trimmed) else trimmed;
        if |normalized| > 1 && HasDoubleSlash(normalized) then Err(InvalidFilename)
        else if normalized == ROOT then Ok(ROOT)
        else
          var parts :- StrictParts(Split(normalized)[1..]);
          if |PathOf(parts)| > MAX_PATH_LEN then Err(FilenameTooLong) else Ok(PathOf(parts))
  }

  lemma {:induction false} StrictIsKept(parts: seq<str>)
    requires StrictParts(parts).Ok?
    ensures StrictParts(parts).value == parts && Kept(parts) == Ok(parts)
  {
    if parts != [] {
      StrictIsKept(parts[1..]);
      assert parts == [parts[0]] + parts[1..];
    }
  }

  lemma {:induction false} SplitTrailingSlash(s: str)
    ensures Split(s + [SLASH]) == Split(s) + [[]]
  {
    if s == [] {
      assert s + [SLASH] == [SLASH];
      assert [SLASH][1..] == [];
    } else {
      SplitTrailingSlash(s[1..]);
      assert (s + [SLASH])[1..] == s[1..] + [SLASH];
    }
  }

  lemma {:induction false} KeptTrimSlashes(s: str)
    ensures Kept(Split(TrimSlashes(s))) == Kept(Split(s))
  {
    if s != [] && s[|s| - 1] == SLASH {
      var front := s[..|s| - 1];
      KeptTrimSlashes(front);
      assert s == front + [SLASH];
      SplitTrailingSlash(front);
      KeptTrailingEmpty(Split(front));
    }
  }

  /** Whatever the strict form accepts, `canonical_path` maps to the same path. */
  lemma WarexecAgrees(path: str, allowTrailingSlash: bool)
    requires WarexecPath(path, allowTrailingSlash).Ok?
    ensures CanonicalPath(path) == WarexecPath(path, allowTrailingSlash)
  {
    hide Trim, TrimSlashes, HasDoubleSlash, JoinAll, GoodComponent;
    var trimmed := Trim(path);
    var trailing := |trimmed| > 1 && trimmed[|trimmed| - 1] == SLASH;
    var normalized := if trailing then TrimSlashes(trimmed) else trimmed;
    KeptTrimSlashes(trimmed);
    if normalized == ROOT {
      CanonicalFixpoint(ROOT) by { assert IsPathOf(ROOT, []); }
    } else {
      StrictIsKept(Split(normalized)[1..]);
      assert Split(normalized) == [Split(normalized)[0]] + Split(normalized)[1..];
      assert Split(normalized)[0] == [];
      assert Kept(Split(trimmed)) == Kept(Split(normalized)) == Kept(Split(normalized)[1..]);
    }
  }

  // ---------- directories ----------

  /** Length of the path up to its last slash, or -1 without one. */
  function LastSlash(s: str): (i: int)
    ensures -1 <= i < |s|
  {
    if s == [] then -1 else if s[|s| - 1] == SLASH then |s| - 1 else LastSlash(s[..|s| - 1])
  }

  function ParentDirectory(path: str): str {
    if path == ROOT then ROOT
    else
      var trimmed := TrimSlashes(path);
      if LastSlash(trimmed) <= 0 then ROOT else trimmed[..LastSlash(trimmed)]
  }

  /** "/.wardir" inside a directory marks that the directory exists. */
  function MarkerPath(path: str): str {
    (if path == ROOT then [] else path) + Ascii("/.wardir")
  }
}
