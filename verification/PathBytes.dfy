/**
 Canonical paths byte by byte (kernel/src/fs/mod.rs): which paths `canonical_path` returns
 unchanged, and how every other path it accepts is brought into that form.
 */
module PathBytes {
  import opened Bytes
  import opened Errors
  import opened Paths

  // ---------- runs between slashes ----------

  /** The bytes from `i` to `j` lie between two slashes, or between a slash and an end of the text. */
  predicate Run(s: str, i: int, j: int) {
    && 0 <= i <= j <= |s|
    && (i == 0 || s[i - 1] == 47) && (j == |s| || s[j] == 47)
    && forall k | i <= k < j :: s[k] != 47
  }

  /** Splitting at one slash. */
  lemma {:induction false} SplitAt(x: str, y: str)
    ensures Split(x + [SLASH] + y) == Split(x) + Split(y)
  {
    hide Split;
    var s := x + [SLASH] + y;
    SplitStep(s);
    if x == [] {
      assert s[1..] == y;
      SplitNothing();
    } else {
      SplitStep(x);
      SplitAt(x[1..], y);
      assert s[1..] == x[1..] + [SLASH] + y;
      Glue(x[0], Split(x[1..]), Split(y));
    }
  }

  lemma Glue(c: byte, a: seq<str>, b: seq<str>)
    requires a != []
    ensures [[]] + (a + b) == ([[]] + a) + b
    ensures [[c] + (a + b)[0]] + (a + b)[1..] == ([[c] + a[0]] + a[1..]) + b
  {
    assert (a + b)[1..] == a[1..] + b && (a + b)[0] == a[0];
  }

  lemma SplitStep(s: str)
    requires s != []
    ensures var rest := Split(s[1..]);
            Split(s) == if s[0] == SLASH then [[]] + rest else [[s[0]] + rest[0]] + rest[1..]
  {
  }

  lemma SplitWhole(c: str)
    requires SLASH !in c
    ensures Split(c) == [c]
  {
    SplitPrefix(c, []);
    assert c + [] == c;
  }

  /** Every run is a part. */
  lemma RunIsPart(s: str, i: int, j: int)
    requires Run(s, i, j)
    ensures s[i..j] in Split(s)
  {
    hide Split;
    var c, after := s[i..j], Split(s[i..]);
    SplitWhole(c);
    if j < |s| {
      assert s[i..] == c + [SLASH] + s[j + 1..];
      SplitAt(c, s[j + 1..]);
    } else {
      assert s[i..] == c;
    }
    assert after[0] == c;
    if i > 0 {
      assert s == s[..i - 1] + [SLASH] + s[i..];
      SplitAt(s[..i - 1], s[i..]);
      assert Split(s)[|Split(s[..i - 1])|] == c;
    } else {
      assert s[0..] == s;
    }
  }

  /** Every part is a run. */
  lemma {:induction false} PartIsRun(s: str, c: str) returns (i: int, j: int)
    requires c in Split(s)
    ensures Run(s, i, j) && s[i..j] == c
    decreases |s|
  {
    hide Split;
    if SLASH in s {
      var d := FirstSlash(s);
      assert s == s[..d] + [SLASH] + s[d + 1..];
      SplitAt(s[..d], s[d + 1..]);
      SplitWhole(s[..d]);
      if c == s[..d] {
        i, j := 0, d;
      } else {
        var rest := Split(s[d + 1..]);
        var m :| 0 <= m < 1 + |rest| && ([s[..d]] + rest)[m] == c;
        assert rest[m - 1] == c;
        i, j := PartIsRun(s[d + 1..], c);
        assert s[d + 1..][i..j] == s[d + 1 + i..d + 1 + j];
        i, j := d + 1 + i, d + 1 + j;
      }
    } else {
      SplitWhole(s);
      i, j := 0, |s|;
    }
  }

  lemma {:induction false} FirstSlash(s: str) returns (d: nat)
    requires SLASH in s
    ensures d < |s| && s[d] == SLASH && SLASH !in s[..d]
  {
    if s[0] == SLASH {
      d := 0;
    } else {
      d := FirstSlash(s[1..]);
      d := d + 1;
      assert s[..d] == [s[0]] + s[1..][..d - 1];
    }
  }

  /** Joining the parts again, each with a slash in front. */
  lemma {:induction false} JoinSplit(s: str)
    ensures JoinAll(Split(s)) == [SLASH] + s
    decreases |s|
  {
    hide Split, JoinAll;
    if SLASH in s {
      var d := FirstSlash(s);
      assert s == s[..d] + [SLASH] + s[d + 1..];
      SplitAt(s[..d], s[d + 1..]);
      SplitWhole(s[..d]);
      JoinSplit(s[d + 1..]);
      JoinHead(Split(s));
      assert Split(s)[1..] == Split(s[d + 1..]);
    } else {
      SplitWhole(s);
      JoinHead([s]);
      JoinHead([]);
      assert [s][1..] == [];
    }
  }

  // ---------- the canonical form ----------

  predicate PathByte(b: byte) {
    b == 47 || 48 <= b <= 57 || 65 <= b <= 90 || 97 <= b <= 122 || b == 45 || b == 46 || b == 95
  }

  /**
   A slash alone; or slashes, letters, digits, "-", "." and "_", at most 96 of them, that
   start with a slash and do not end in one, no two slashes together, and no stretch between
   slashes that is ".", ".." or longer than 31 bytes.
   */
  ghost predicate CanonicalBytes(p: str) {
    p == [47] ||
    (&& 1 < |p| <= 96 && p[0] == 47 && p[|p| - 1] != 47
     && (forall i | 0 <= i < |p| :: PathByte(p[i]))
     && (forall i | 0 <= i < |p| - 1 :: p[i] != 47 || p[i + 1] != 47)
     && forall i, j | 0 < i && Run(p, i, j) :: j - i <= 31 && p[i..j] != [46] && p[i..j] != [46, 46])
  }

  /** Canonical paths split into good components behind the first slash. */
  lemma CanonicalParts(p: str)
    ensures Canonical(p) <==>
              p == ROOT || (1 < |p| <= MAX_PATH_LEN && p[0] == SLASH && AllGood(Split(p[1..])))
  {
    hide Split, JoinAll, GoodComponent;
    if Canonical(p) && p != ROOT {
      var parts :| IsPathOf(p, parts);
      PathLonger(parts);
      GoodNoSlash(parts);
      SplitJoin(parts);
      SplitSlash(p);
      assert Split(p)[1..] == parts;
    }
    if p == ROOT {
      assert IsPathOf(p, []);
    } else if 1 < |p| <= MAX_PATH_LEN && p[0] == SLASH && AllGood(Split(p[1..])) {
      JoinSplit(p[1..]);
      assert p == [SLASH] + p[1..];
      assert IsPathOf(p, Split(p[1..]));
    }
  }

  lemma GoodNoSlash(parts: seq<str>)
    requires AllGood(parts)
    ensures forall c | c in parts :: NoSlash(c)
  {
    forall c | c in parts
      ensures NoSlash(c)
    {
      assert GoodComponent(c);
    }
  }

  lemma PathLonger(parts: seq<str>)
    requires AllGood(parts)
    ensures PathOf(parts) == ROOT || (parts != [] && |PathOf(parts)| > 1)
  {
    if parts != [] {
      JoinHead(parts);
      assert parts[0] in parts;
    }
  }

  /** A stretch of bytes that may stand between slashes. */
  predicate GoodRun(p: str, i: int, j: int)
    requires 0 <= i <= j <= |p|
  {
    && 0 < j - i <= 31 && p[i..j] != [46] && p[i..j] != [46, 46]
    && forall k | i <= k < j :: p[k] != 47 && PathByte(p[k])
  }

  lemma GoodRunExactly(p: str, i: int, j: int)
    requires 0 <= i <= j <= |p|
    ensures GoodComponent(p[i..j]) <==> GoodRun(p, i, j)
  {
    var c := p[i..j];
    if GoodComponent(c) {
      forall k | i <= k < j
        ensures p[k] != 47 && PathByte(p[k])
      {
        assert ComponentByte(c[k - i]);
      }
    }
  }

  lemma AllRunsGood(q: str)
    ensures AllGood(Split(q)) <==> forall i, j | Run(q, i, j) :: GoodRun(q, i, j)
  {
    hide Split, GoodComponent, GoodRun;
    if AllGood(Split(q)) {
      forall i, j | Run(q, i, j)
        ensures GoodRun(q, i, j)
      {
        RunIsPart(q, i, j);
        GoodRunExactly(q, i, j);
      }
    }
    if forall i, j | Run(q, i, j) :: GoodRun(q, i, j) {
      forall c | c in Split(q)
        ensures GoodComponent(c)
      {
        var i, j := PartIsRun(q, c);
        GoodRunExactly(q, i, j);
      }
    }
  }

  lemma {:induction false} LeftEnd(q: str, k: nat) returns (i: nat)
    requires k <= |q|
    ensures i <= k && (i == 0 || q[i - 1] == 47) && forall m | i <= m < k :: q[m] != 47
  {
    i := k;
    if k > 0 && q[k - 1] != 47 {
      i := LeftEnd(q, k - 1);
    }
  }

  lemma {:induction false} RightEnd(q: str, k: nat) returns (j: nat)
    requires k <= |q|
    ensures k <= j <= |q| && (j == |q| || q[j] == 47) && forall m | k <= m < j :: q[m] != 47
    decreases |q| - k
  {
    j := k;
    if k < |q| && q[k] != 47 {
      j := RightEnd(q, k + 1);
    }
  }

  /** Runs that are good leave no room for bad bytes or empty stretches. */
  lemma GoodRunsGiveBytes(p: str)
    requires |p| > 1 && p[0] == 47 && forall i, j | Run(p[1..], i, j) :: GoodRun(p[1..], i, j)
    ensures p[|p| - 1] != 47
    ensures forall i | 0 <= i < |p| :: PathByte(p[i])
    ensures forall i | 0 <= i < |p| - 1 :: p[i] != 47 || p[i + 1] != 47
    ensures forall i, j | 0 < i && Run(p, i, j) :: j - i <= 31 && p[i..j] != [46] && p[i..j] != [46, 46]
  {
    var q := p[1..];
    assert !Run(q, |q|, |q|);
    forall i | 0 <= i < |p| - 1
      ensures p[i] != 47 || p[i + 1] != 47
    {
      assert !Run(q, i, i);
    }
    forall k | 0 < k < |p|
      ensures PathByte(p[k])
    {
      if p[k] != 47 {
        var i := LeftEnd(q, k - 1);
        var j := RightEnd(q, k - 1);
        assert Run(q, i, j);
        assert q[k - 1] == p[k];
      }
    }
    forall i, j | 0 < i && Run(p, i, j)
      ensures j - i <= 31 && p[i..j] != [46] && p[i..j] != [46, 46]
    {
      assert Run(q, i - 1, j - 1);
      assert q[i - 1..j - 1] == p[i..j];
    }
  }

  lemma BytesGiveGoodRuns(p: str, i: int, j: int)
    requires CanonicalBytes(p) && p != [47] && Run(p[1..], i, j)
    ensures GoodRun(p[1..], i, j)
  {
    var q := p[1..];
    assert Run(p, i + 1, j + 1);
    assert q[i..j] == p[i + 1..j + 1];
    assert p[i] == 47;
    forall k | i <= k < j
      ensures PathByte(q[k])
    {
      assert q[k] == p[k + 1];
    }
  }

  /** `canonical_path` returns a path unchanged if and only if its bytes are of that form. */
  lemma CanonicalBytesExactly(p: str)
    ensures CanonicalPath(p) == Ok(p) <==> CanonicalBytes(p)
  {
    hide CanonicalPath, Canonical, Split, GoodComponent, GoodRun, PathByte;
    CanonicalPathExact(p);
    CanonicalParts(p);
    if p != ROOT && 1 < |p| && p[0] == SLASH {
      AllRunsGood(p[1..]);
      if AllGood(Split(p[1..])) {
        GoodRunsGiveBytes(p);
      }
      if CanonicalBytes(p) {
        forall i, j | Run(p[1..], i, j)
          ensures GoodRun(p[1..], i, j)
        {
          BytesGiveGoodRuns(p, i, j);
        }
      }
    }
  }

  // ---------- other paths ----------

  predicate AllPrintable(s: str) { forall i | 0 <= i < |s| :: Printable(s[i]) }

  lemma PrintableKept(s: str)
    requires AllPrintable(s)
    ensures Trim(s) == s
  {
    TrimIdentity(s);
  }

  lemma {:induction false} StartTrimmed(s: str)
    ensures SpaceAtFront(TrimStart(s)) == 0
    decreases |s|
  {
    hide SpaceAtFront;
    if SpaceAtFront(s) > 0 {
      StartTrimmed(s[SpaceAtFront(s)..]);
    }
  }

  lemma {:induction false} EndTrimmed(s: str)
    ensures SpaceAtBack(TrimEnd(s)) == 0 && TrimEnd(s) <= s
    decreases |s|
  {
    hide SpaceAtBack;
    if SpaceAtBack(s) > 0 {
      EndTrimmed(s[..|s| - SpaceAtBack(s)]);
    }
  }

  lemma FrontOfPrefix(s: str, t: str)
    requires t <= s && SpaceAtFront(s) == 0
    ensures SpaceAtFront(t) == 0
  {
    hide IsSpace;
    assert |t| >= 1 ==> t[..1] == s[..1];
    assert |t| >= 2 ==> t[..2] == s[..2];
    assert |t| >= 3 ==> t[..3] == s[..3];
  }

  lemma TrimTwice(s: str)
    ensures Trim(Trim(s)) == Trim(s)
  {
    hide SpaceAtFront, SpaceAtBack;
    StartTrimmed(s);
    EndTrimmed(TrimStart(s));
    FrontOfPrefix(TrimStart(s), Trim(s));
  }

  /** White space around a path does not count. */
  lemma TrimmedSame(p: str)
    ensures CanonicalPath(p) == CanonicalPath(Trim(p))
  {
    hide Trim, Kept, Split, PathOf;
    TrimTwice(p);
  }

  /** The last `k` bytes are a white space character. */
  predicate SpaceEnds(s: str, k: nat) { 1 <= k <= |s| && k <= 3 && IsSpace(s[|s| - k..]) }

  lemma NoSpaceBack(s: str)
    ensures SpaceAtBack(s) == 0 <==> !SpaceEnds(s, 1) && !SpaceEnds(s, 2) && !SpaceEnds(s, 3)
  {
    hide IsSpace;
  }

  lemma SlashEnds(t: str, k: nat)
    requires 1 <= k <= 3
    ensures SpaceEnds([47] + t, k) ==> SpaceEnds(t, k)
  {
    hide IsSpace;
    var s := [47] + t;
    if k <= |t| {
      assert s[|s| - k..] == t[|t| - k..];
    } else if k == |s| {
      assert s[|s| - k..] == s;
    }
  }

  lemma SlashInFront(t: str)
    requires Trim(t) == t
    ensures Trim([47] + t) == [47] + t
  {
    hide IsSpace, SpaceAtBack, SpaceAtFront, SpaceEnds;
    var s := [47] + t;
    StartTrimmed(t);
    EndTrimmed(TrimStart(t));
    NoSpaceBack(t);
    NoSpaceBack(s);
    SlashEnds(t, 1);
    SlashEnds(t, 2);
    SlashEnds(t, 3);
    assert s[0] == 47;
  }

  /** Any path is taken from the root. */
  lemma RelativeFromRoot(p: str)
    requires Trim(p) != []
    ensures CanonicalPath(p) == CanonicalPath([47] + Trim(p))
  {
    hide Trim, Kept, Split, PathOf;
    var t, none: seq<str> := Trim(p), [];
    TrimTwice(p);
    SlashInFront(t);
    if t[0] == SLASH {
      SplitSlash([SLASH] + t);
      assert ([SLASH] + t)[1..] == t;
      KeptSkips(none, [], Split(t));
      assert none + [[]] + Split(t) == [[]] + Split(t) && none + Split(t) == Split(t);
    }
  }

  /** An empty part or "." may be left out. */
  lemma {:induction false} KeptSkips(a: seq<str>, c: str, b: seq<str>)
    requires c == [] || c == [DOT]
    ensures Kept(a + [c] + b) == Kept(a + b)
  {
    hide ValidComponent;
    if a == [] {
      assert ([] + [c] + b)[1..] == b;
      assert a + b == b;
    } else {
      KeptSkips(a[1..], c, b);
      assert (a + [c] + b)[1..] == a[1..] + [c] + b;
      assert (a + b)[1..] == a[1..] + b;
    }
  }

  /** Two paths whose parts come to the same have the same canonical path. */
  lemma SameParts(p: str, q: str)
    requires p != [] && q != [] && AllPrintable(p) && AllPrintable(q) && p[0] == SLASH == q[0]
    requires Kept(Split(p)) == Kept(Split(q))
    ensures CanonicalPath(p) == CanonicalPath(q)
  {
    hide Trim, Kept, Split, PathOf;
    PrintableKept(p);
    PrintableKept(q);
  }

  /** Two slashes count as one. */
  lemma SlashesMerge(a: str, b: str)
    requires AllPrintable(a) && AllPrintable(b) && (a == [] || a[0] == 47)
    ensures CanonicalPath(a + [47, 47] + b) == CanonicalPath(a + [47] + b)
  {
    hide Split, Kept, CanonicalPath;
    assert a + [SLASH, SLASH] + b == (a + [SLASH] + []) + [SLASH] + b;
    SplitAt(a + [SLASH] + [], b);
    SplitAt(a, []);
    SplitNothing();
    SplitAt(a, b);
    KeptSkips(Split(a), [], Split(b));
    SameParts(a + [47, 47] + b, a + [47] + b);
  }

  /** A "." between slashes does not count. */
  lemma DotsDrop(a: str, b: str)
    requires AllPrintable(a) && AllPrintable(b) && (a == [] || a[0] == 47)
    ensures CanonicalPath(a + [47, 46, 47] + b) == CanonicalPath(a + [47] + b)
  {
    hide Split, Kept, CanonicalPath;
    assert a + [47, 46, 47] + b == (a + [SLASH] + [DOT]) + [SLASH] + b;
    SplitAt(a + [SLASH] + [DOT], b);
    SplitAt(a, [DOT]);
    SplitWhole([DOT]);
    SplitAt(a, b);
    KeptSkips(Split(a), [DOT], Split(b));
    SameParts(a + [47, 46, 47] + b, a + [47] + b);
  }

  /** Nor does a slash at the end, with or without a ".". */
  lemma EndsDrop(a: str)
    requires a != [] && AllPrintable(a) && a[0] == 47
    ensures CanonicalPath(a + [47]) == CanonicalPath(a) == CanonicalPath(a + [47, 46])
  {
    hide Split, Kept, CanonicalPath;
    var none: seq<str> := [];
    assert a + [47] == a + [SLASH] + [];
    assert a + [47, 46] == a + [SLASH] + [DOT];
    SplitAt(a, []);
    SplitAt(a, [DOT]);
    SplitNothing();
    SplitWhole([DOT]);
    KeptSkips(Split(a), [], none);
    KeptSkips(Split(a), [DOT], none);
    assert Split(a) + [[]] + none == Split(a) + [[]] && Split(a) + [[DOT]] + none == Split(a) + [[DOT]];
    assert Split(a) + none == Split(a);
    SameParts(a + [47], a);
    SameParts(a + [47, 46], a);
  }

  /** With none of these to leave out, a path is returned as it is or not at all. */
  lemma PlainOrRefused(p: str)
    requires |p| > 1 && p[0] == 47 && p[|p| - 1] != 47 && AllPrintable(p)
    requires forall i | 0 <= i < |p| - 1 :: p[i] != 47 || p[i + 1] != 47
    requires forall i, j | 0 < i && Run(p, i, j) :: p[i..j] != [46]
    ensures CanonicalPath(p) ==
              if forall i, j | 0 < i && Run(p, i, j) :: GoodRun(p, i, j) then
                if |p| > 96 then Err(FilenameTooLong) else Ok(p)
              else Err(InvalidFilename)
  {
    hide Split, Kept, GoodComponent, JoinAll, Trim, GoodRun;
    var q, parts := p[1..], Split(p[1..]);
    PrintableKept(p);
    SplitSlash(p);
    var none: seq<str> := [];
    KeptSkips(none, [], parts);
    assert none + [[]] + parts == [[]] + parts && none + parts == parts;
    forall c | c in parts
      ensures c != [] && c != [DOT]
    {
      var i, j := PartIsRun(q, c);
      assert Run(p, i + 1, j + 1) && q[i..j] == p[i + 1..j + 1];
      assert p[i] == 47;
    }
    KeptAll(parts);
    AllRunsGood(q);
    SameRuns(p);
    JoinSplit(q);
    assert Kept(Split(p)) == Kept(parts);
    assert p == [SLASH] + q && PathOf(parts) == p;
  }

  lemma SameRuns(p: str)
    requires |p| > 1 && p[0] == 47
    ensures (forall i, j | Run(p[1..], i, j) :: GoodRun(p[1..], i, j)) <==>
            (forall i, j | 0 < i && Run(p, i, j) :: GoodRun(p, i, j))
  {
    hide GoodRun;
    if forall i, j | Run(p[1..], i, j) :: GoodRun(p[1..], i, j) {
      forall i, j | 0 < i && Run(p, i, j)
        ensures GoodRun(p, i, j)
      {
        ShiftRun(p, i - 1, j - 1);
      }
    }
    if forall i, j | 0 < i && Run(p, i, j) :: GoodRun(p, i, j) {
      forall i, j | Run(p[1..], i, j)
        ensures GoodRun(p[1..], i, j)
      {
        ShiftRun(p, i, j);
      }
    }
  }

  lemma ShiftRun(p: str, i: int, j: int)
    requires |p| > 1 && p[0] == 47
    ensures Run(p[1..], i, j) <==> 0 < i + 1 && Run(p, i + 1, j + 1)
    ensures Run(p[1..], i, j) ==> (GoodRun(p[1..], i, j) <==> GoodRun(p, i + 1, j + 1))
  {
    if 0 <= i <= j <= |p| - 1 {
      assert p[1..][i..j] == p[i + 1..j + 1];
      assert forall k | 0 <= k < |p| - 1 :: p[1..][k] == p[k + 1];
      GoodRunExactly(p[1..], i, j);
      GoodRunExactly(p, i + 1, j + 1);
    }
  }

  /** Without parts to skip, all are kept or the path is refused. */
  lemma {:induction false} KeptAll(parts: seq<str>)
    requires forall c | c in parts :: c != [] && c != [DOT]
    ensures Kept(parts) == if AllGood(parts) then Ok(parts) else Err(InvalidFilename)
  {
    hide ValidComponent;
    if parts != [] {
      assert forall c | c in parts[1..] :: c in parts;
      KeptAll(parts[1..]);
      assert parts[0] in parts;
      assert parts == [parts[0]] + parts[1..];
      AllGoodCons(parts[0], parts[1..]);
    }
  }

  // ---------- the strict form ----------

  lemma {:induction false} StrictExactly(parts: seq<str>)
    ensures StrictParts(parts) == if AllGood(parts) then Ok(parts) else Err(InvalidFilename)
  {
    hide GoodComponent;
    if parts != [] {
      StrictExactly(parts[1..]);
      assert parts == [parts[0]] + parts[1..];
      AllGoodCons(parts[0], parts[1..]);
    }
  }

  /** What the strict form makes of a path it has rid of its end slashes. */
  function StrictRest(normalized: str): Result<str, FsError> {
    if |normalized| > 1 && HasDoubleSlash(normalized) then Err(InvalidFilename)
    else if normalized == ROOT then Ok(ROOT)
    else
      var parts :- StrictParts(Split(normalized)[1..]);
      if |PathOf(parts)| > MAX_PATH_LEN then Err(FilenameTooLong) else Ok(PathOf(parts))
  }

  lemma StrictRestExactly(n: str)
    requires n == [] || n[0] == 47
    ensures StrictRest(n).Ok? <==> n == [] || CanonicalBytes(n)
    ensures StrictRest(n).Ok? ==> StrictRest(n).value == if n == [] then [47] else n
  {
    hide Split, GoodComponent, JoinAll, CanonicalPath, Canonical, PathByte, Run;
    if n == [] {
      SplitNothing();
    } else if n != ROOT {
      SplitSlash(n);
      assert Split(n)[1..] == Split(n[1..]);
      StrictExactly(Split(n[1..]));
      JoinSplit(n[1..]);
      assert n == [SLASH] + n[1..];
      CanonicalParts(n);
      CanonicalPathExact(n);
      CanonicalBytesExactly(n);
    }
  }

  /**
   The strict form accepts canonical paths, and with leave those with slashes at the end,
   which it takes away; nothing else.
   */
  lemma WarexecExactly(path: str, allowTrailingSlash: bool)
    ensures var t, u := Trim(path), TrimSlashes(Trim(path));
            var trailing := |t| > 1 && t[0] == 47 && t[|t| - 1] == 47;
            && (WarexecPath(path, allowTrailingSlash).Ok? <==>
                  CanonicalBytes(t) || (trailing && allowTrailingSlash && (u == [] || CanonicalBytes(u))))
            && (WarexecPath(path, allowTrailingSlash).Ok? ==>
                  WarexecPath(path, allowTrailingSlash).value == if !trailing then t else if u == [] then [47] else u)
  {
    hide Trim, CanonicalBytes, StrictRest, TrimSlashes;
    var t, u := Trim(path), TrimSlashes(Trim(path));
    NoCanonicalEnds(t);
    if t != [] && t[0] == SLASH {
      StrictRestExactly(t);
      StrictRestExactly(u);
      assert WarexecPath(path, allowTrailingSlash) ==
             if |t| > 1 && t[|t| - 1] == SLASH && !allowTrailingSlash then Err(InvalidFilename)
             else if |t| > 1 && t[|t| - 1] == SLASH then StrictRest(u) else StrictRest(t) by { RestOf(path, allowTrailingSlash); }
    }
  }

  lemma NoCanonicalEnds(t: str)
    ensures CanonicalBytes(t) ==> t != [] && t[0] == 47 && (|t| > 1 ==> t[|t| - 1] != 47)
  {
  }

  lemma RestOf(path: str, allowTrailingSlash: bool)
    requires Trim(path) != [] && Trim(path)[0] == SLASH
    ensures var t := Trim(path);
            WarexecPath(path, allowTrailingSlash) ==
              if |t| > 1 && t[|t| - 1] == SLASH && !allowTrailingSlash then Err(InvalidFilename)
              else if |t| > 1 && t[|t| - 1] == SLASH then StrictRest(TrimSlashes(t)) else StrictRest(t)
  {
    hide Trim, TrimSlashes, StrictParts, Split, PathOf, HasDoubleSlash;
  }
}
