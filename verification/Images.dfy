/**
 What every image between two moments keeps. An update is judged by the images it writes,
 since each of them may be the one a crash leaves behind.
 */
module Images {
  import opened Bytes
  import opened Errors
  import opened DiskLayout
  import opened Volumes

  ghost predicate SafeImage(image: Image) {
    |image| >= DATA_START && CrashSafe(View(image))
  }

  ghost predicate SafeSince(history: seq<Image>, n: nat) {
    forall k | n <= k < |history| :: SafeImage(history[k])
  }

  /** Names this code can tell apart: unique, rooted, and short enough to be stored whole. */
  ghost predicate Named(v: Volume) { UniqueNames(v.table) && GoodNames(v.table) }

  /** The files other than `name` are as they are in `v`. */
  ghost predicate SameOthers(v: Volume, v': Volume, name: str)
    requires Sound(v) && Sound(v')
  {
    Named(v') && Contents(v') - {name} == Contents(v) - {name}
  }

  ghost predicate KeepsOthers(image: Image, v: Volume, name: str)
    requires Sound(v)
  {
    |image| >= DATA_START && Sound(View(image)) && SameOthers(v, View(image), name)
  }

  /** In every image since, the files other than `name` are as they were in `v`. */
  ghost predicate OthersSince(history: seq<Image>, n: nat, v: Volume, name: str)
    requires Sound(v)
  {
    forall k | n <= k < |history| :: KeepsOthers(history[k], v, name)
  }

  ghost predicate SameImage(image: Image, v: Volume)
    requires Sound(v)
  {
    |image| >= DATA_START && Sound(View(image)) && Named(View(image)) && Contents(View(image)) == Contents(v)
  }

  /** In every image since, all files are as they were in `v`. */
  ghost predicate SameSince(history: seq<Image>, n: nat, v: Volume)
    requires Sound(v)
  {
    forall k | n <= k < |history| :: SameImage(history[k], v)
  }

  function LookUp(m: map<str, Record>, name: str): Option<Record> {
    if name in m then Some(m[name]) else None
  }

  /** The files with `name` put in, or taken out. */
  function Put(m: map<str, Record>, name: str, r: Option<Record>): map<str, Record> {
    match r
    case Some(x) => m[name := x]
    case None => m - {name}
  }

  /** Nothing changed, or `name` did, all the way to `r`. */
  ghost predicate Either(v: Volume, v': Volume, name: str, r: Option<Record>)
    requires Sound(v) && Sound(v')
  {
    Named(v') && (Contents(v') == Contents(v) || Contents(v') == Put(Contents(v), name, r))
  }

  ghost predicate EitherImage(image: Image, v: Volume, name: str, r: Option<Record>)
    requires Sound(v)
  {
    |image| >= DATA_START && Sound(View(image)) && Either(v, View(image), name, r)
  }

  /** The update is atomic: every image since holds the old files or the new ones. */
  ghost predicate EitherSince(history: seq<Image>, n: nat, v: Volume, name: str, r: Option<Record>)
    requires Sound(v)
  {
    forall k | n <= k < |history| :: EitherImage(history[k], v, name, r)
  }

  /** What an update of `name` to `r` may have done by now; `calm` updates are atomic. */
  ghost predicate Reached(v: Volume, v': Volume, name: str, r: Option<Record>, calm: bool)
    requires Sound(v) && Sound(v')
  {
    SameOthers(v, v', name) && (calm ==> Either(v, v', name, r))
  }

  /** The same of every image since. */
  ghost predicate ReachedSince(history: seq<Image>, n: nat, v: Volume, name: str, r: Option<Record>, calm: bool)
    requires Sound(v)
  {
    OthersSince(history, n, v, name) && (calm ==> EitherSince(history, n, v, name, r))
  }

  lemma SameIsOthers(history: seq<Image>, n: nat, v: Volume, v1: Volume, name: str)
    requires Sound(v) && Sound(v1) && SameOthers(v, v1, name) && SameSince(history, n, v1)
    ensures OthersSince(history, n, v, name)
  {
    hide View, Contents, Named;
    forall k | n <= k < |history|
      ensures KeepsOthers(history[k], v, name)
    {
      assert SameImage(history[k], v1);
    }
  }

  lemma SameIsEither(history: seq<Image>, n: nat, v: Volume, v1: Volume, name: str, r: Option<Record>)
    requires Sound(v) && Sound(v1) && Either(v, v1, name, r) && SameSince(history, n, v1)
    ensures EitherSince(history, n, v, name, r)
  {
    hide View, Contents, Named;
    forall k | n <= k < |history|
      ensures EitherImage(history[k], v, name, r)
    {
      assert SameImage(history[k], v1);
    }
  }

  lemma EitherRebase(history: seq<Image>, n: nat, v: Volume, v1: Volume, name: str, r: Option<Record>)
    requires Sound(v) && Sound(v1) && Contents(v1) == Contents(v) && EitherSince(history, n, v1, name, r)
    ensures EitherSince(history, n, v, name, r)
  {
    hide View, Contents, Named;
    forall k | n <= k < |history|
      ensures EitherImage(history[k], v, name, r)
    {
      assert EitherImage(history[k], v1, name, r);
    }
  }

  lemma EitherNext(history: seq<Image>, n: nat, v: Volume, name: str, r: Option<Record>, image: Image)
    requires Sound(v) && EitherSince(history, n, v, name, r) && EitherImage(image, v, name, r)
    ensures EitherSince(history + [image], n, v, name, r)
  {
    hide EitherImage;
  }

  lemma EitherJoin(middle: seq<Image>, history: seq<Image>, n: nat, v: Volume, name: str, r: Option<Record>)
    requires Sound(v) && middle <= history
    requires EitherSince(middle, n, v, name, r) && EitherSince(history, |middle|, v, name, r)
    ensures EitherSince(history, n, v, name, r)
  {
    hide EitherImage;
    forall k | n <= k < |history|
      ensures EitherImage(history[k], v, name, r)
    {
      if k < |middle| {
        assert history[k] == middle[k];
      }
    }
  }

  /** One more image, reached from a volume that kept the others. */
  lemma OthersNext(history: seq<Image>, n: nat, v: Volume, v1: Volume, name: str, image: Image)
    requires Sound(v) && Sound(v1) && SameOthers(v, v1, name)
    requires OthersSince(history, n, v, name) && KeepsOthers(image, v1, name)
    ensures OthersSince(history + [image], n, v, name)
  {
  }

  // ---------- slots ----------

  ghost predicate SlotImage(image: Image, v: Volume, t: nat)
    requires Sound(v) && t < MAX_FILES
  {
    |image| >= DATA_START && Sound(View(image)) && OnlySlot(v, View(image), t)
  }

  /** In every image since, every slot but `t` is what it was in `v` and reads as it did, whatever the names. */
  ghost predicate SlotsSince(history: seq<Image>, n: nat, v: Volume, t: nat)
    requires Sound(v) && t < MAX_FILES
  {
    forall k | n <= k < |history| :: SlotImage(history[k], v, t)
  }

  lemma SlotsSame(v: Volume, v1: Volume, v2: Volume, t: nat)
    requires Sound(v) && Sound(v1) && Sound(v2) && t < MAX_FILES && OnlySlot(v, v1, t) && OnlySlot(v1, v2, t)
    ensures OnlySlot(v, v2, t)
  {
    hide RecordOf;
  }

  /** Two stretches, the second from a volume that kept the slots. */
  lemma SlotsJoin(middle: seq<Image>, history: seq<Image>, n: nat, v: Volume, v1: Volume, t: nat)
    requires Sound(v) && Sound(v1) && t < MAX_FILES && OnlySlot(v, v1, t) && middle <= history
    requires SlotsSince(middle, n, v, t) && SlotsSince(history, |middle|, v1, t)
    ensures SlotsSince(history, n, v, t)
  {
    hide View, OnlySlot, Sound;
    forall k | n <= k < |history|
      ensures SlotImage(history[k], v, t)
    {
      if k < |middle| {
        assert history[k] == middle[k];
      } else {
        assert SlotImage(history[k], v1, t);
        SlotsSame(v, v1, View(history[k]), t);
      }
    }
  }

  // ---------- stretches of a run ----------

  /** Two stretches of a run, the second reached from a volume that kept the others. */
  lemma OthersJoin(middle: seq<Image>, history: seq<Image>, n: nat, v: Volume, v1: Volume, name: str)
    requires Sound(v) && Sound(v1) && SameOthers(v, v1, name)
    requires middle <= history && OthersSince(middle, n, v, name) && OthersSince(history, |middle|, v1, name)
    ensures OthersSince(history, n, v, name)
  {
    forall k | n <= k < |history|
      ensures KeepsOthers(history[k], v, name)
    {
      if k < |middle| {
        assert history[k] == middle[k];
      }
    }
  }

  lemma SafeJoin(middle: seq<Image>, history: seq<Image>, n: nat)
    requires middle <= history && SafeSince(middle, n) && SafeSince(history, |middle|)
    ensures SafeSince(history, n)
  {
    forall k | n <= k < |history|
      ensures SafeImage(history[k])
    {
      if k < |middle| {
        assert history[k] == middle[k];
      }
    }
  }

  /** The images of the dirty mark that opens an update. */
  lemma OpenImages(v: Volume, v1: Volume, h: seq<Image>, h1: seq<Image>, name: str, r: Option<Record>, calm: bool)
    requires Sound(v) && Sound(v1) && Named(v) && Named(v1) && Contents(v1) == Contents(v)
    requires SameSince(h1, |h|, v)
    ensures Reached(v, v1, name, r, calm) && ReachedSince(h1, |h|, v, name, r, calm)
  {
    hide Contents, Named, SameSince, OthersSince, EitherSince;
    SameIsOthers(h1, |h|, v, v, name);
    SameIsEither(h1, |h|, v, v, name, r);
  }

  /** The images of the update proper, on a volume that holds the files of `v`. */
  lemma MiddleImages(v: Volume, v1: Volume, h1: seq<Image>, h2: seq<Image>, n: nat, name: str, r: Option<Record>, calm: bool)
    requires Sound(v) && Sound(v1) && Named(v) && Named(v1) && Contents(v1) == Contents(v) && h1 <= h2
    requires ReachedSince(h1, n, v, name, r, calm) && ReachedSince(h2, |h1|, v1, name, r, calm)
    ensures ReachedSince(h2, n, v, name, r, calm)
  {
    hide Contents, Named, OthersSince, EitherSince;
    OthersJoin(h1, h2, n, v, v1, name);
    if calm {
      EitherRebase(h2, |h1|, v, v1, name, r);
      EitherJoin(h1, h2, n, v, name, r);
    }
  }

  /** The images of the recount that closes it. */
  lemma CloseImages(v: Volume, v2: Volume, middle: seq<Image>, history: seq<Image>, n: nat, name: str, r: Option<Record>, calm: bool)
    requires Sound(v) && Sound(v2) && Named(v) && middle <= history && SameSince(history, |middle|, v2)
    requires Reached(v, v2, name, r, calm) && ReachedSince(middle, n, v, name, r, calm)
    ensures ReachedSince(history, n, v, name, r, calm)
  {
    hide Contents, Named, SameSince, SameOthers, OthersSince, Either, EitherSince;
    SameIsOthers(history, |middle|, v, v2, name);
    OthersSplice(middle, history, n, v, name);
    if calm {
      SameIsEither(history, |middle|, v, v2, name, r);
      EitherJoin(middle, history, n, v, name, r);
    }
  }

  lemma ReachedSame(v: Volume, v1: Volume, v2: Volume, name: str, r: Option<Record>, calm: bool)
    requires Sound(v) && Sound(v1) && Sound(v2)
    requires Reached(v, v1, name, r, calm) && Contents(v2) == Contents(v1) && v2.table == v1.table
    ensures Reached(v, v2, name, r, calm)
  {
    hide Contents;
  }

  lemma ReachedFrom(v: Volume, v1: Volume, v2: Volume, name: str, r: Option<Record>, calm: bool)
    requires Sound(v) && Sound(v1) && Sound(v2)
    requires Contents(v1) == Contents(v) && Reached(v1, v2, name, r, calm)
    ensures Named(v2) && Reached(v, v2, name, r, calm)
  {
    hide Contents;
  }

  lemma OthersSplice(middle: seq<Image>, history: seq<Image>, n: nat, v: Volume, name: str)
    requires Sound(v) && middle <= history && OthersSince(middle, n, v, name) && OthersSince(history, |middle|, v, name)
    ensures OthersSince(history, n, v, name)
  {
    hide KeepsOthers;
    forall k | n <= k < |history|
      ensures KeepsOthers(history[k], v, name)
    {
      if k < |middle| {
        assert history[k] == middle[k];
      }
    }
  }

  lemma NothingYet(history: seq<Image>, v: Volume, name: str, r: Option<Record>, calm: bool)
    requires Sound(v)
    ensures SafeSince(history, |history|) && ReachedSince(history, |history|, v, name, r, calm)
    ensures Named(v) ==> Reached(v, v, name, r, calm)
  {
  }

  lemma ReachedLess(history: seq<Image>, n: nat, v: Volume, v': Volume, name: str, r: Option<Record>, calm: bool, less: bool)
    requires Sound(v) && Sound(v') && (less ==> calm)
    requires Reached(v, v', name, r, calm) && ReachedSince(history, n, v, name, r, calm)
    ensures Reached(v, v', name, r, less) && ReachedSince(history, n, v, name, r, less)
  {
  }
}
