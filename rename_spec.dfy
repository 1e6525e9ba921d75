/** The renaming of one folder as a function of its set of names: the
    snapshot of `.webp` names in string order, the image loop that gives the
    file at 1-based position i the target `figure_N_img_i.webp`, and the
    single video step. Each step sees the renames made before it. */
module RenameSpec {
  import opened FileNames
  import opened Sorting

  datatype Option<T> = None | Some(value: T)

  /** What the script reports for one file. */
  datatype Outcome = AlreadyCorrect | Collision | Renamed

  /** The branch taken for `file` with target name `target`: names are in one
      folder, so "the target path exists and is another file" is just
      "target is a present name". */
  function Classify(names: set<string>, file: string, target: string): Outcome {
    if file == target then AlreadyCorrect
    else if target in names then Collision
    else Renamed
  }

  /** The folder's names after one attempt to rename `file` to `target`. */
  function Attempt(names: set<string>, file: string, target: string): (r: set<string>)
    ensures r == names <==> Classify(names, file, target) != Renamed
    ensures r - names <= {target} && names - r <= {file}
    ensures r != names ==> file != target && target !in names && r == names - {file} + {target}
  {
    if Classify(names, file, target) == Renamed then names - {file} + {target} else names
  }

  /** A present file ends up under its target name or the target was there
      already; either way the number of names is unchanged. */
  lemma AttemptCount(names: set<string>, file: string, target: string)
    requires file in names
    ensures target in Attempt(names, file, target)
    ensures |Attempt(names, file, target)| == |names|
  {
    if Classify(names, file, target) == Renamed {
      assert names - {file} + {target} == (names - {file}) + {target};
    }
  }

  /** The names after the image loop has handled `done`, a prefix of the
      snapshot: the last file of the prefix is at position |done|. */
  function ImagesAfter(names: set<string>, done: seq<string>, folder: string): set<string>
    decreases |done|
  {
    if done == [] then names
    else Attempt(ImagesAfter(names, done[..|done| - 1], folder), done[|done| - 1], ImageTarget(folder, |done|))
  }

  /** The video step: at most one file, the one enumeration gave first. */
  function VideoAfter(names: set<string>, video: Option<string>, folder: string): (r: set<string>)
    ensures video.None? ==> r == names
    ensures (video.Some? ==> IsVideo(video.value)) ==> Images(r) == Images(names)
  {
    match video
    case None => names
    case Some(v) =>
      var r := Attempt(names, v, VideoTarget(folder));
      assert IsVideo(v) ==> Images(r) == Images(names) by {
        forall y | IsImage(y) && IsVideo(v) ensures y in r <==> y in names {
          ImageNotVideo(y);
          ImageNotVideo(v);
        }
      }
      r
  }

  /** The video step renames at most one file: at most one name goes and at
      most one comes. */
  lemma VideoAtMostOne(names: set<string>, video: Option<string>, folder: string)
    ensures |VideoAfter(names, video, folder) - names| <= 1
    ensures |names - VideoAfter(names, video, folder)| <= 1
  {
    var r := VideoAfter(names, video, folder);
    if video.Some? {
      SubsetOfSingleton(r - names, VideoTarget(folder));
      SubsetOfSingleton(names - r, video.value);
    }
  }

  lemma SubsetOfSingleton(s: set<string>, x: string)
    requires s <= {x}
    ensures |s| <= 1
  {
    if s != {} {
      assert s == {x};
    }
  }

  /** The image target names for positions 1 to k. */
  function Targets(folder: string, k: nat): (r: set<string>)
    ensures forall i :: 1 <= i <= k ==> ImageTarget(folder, i) in r
  {
    if k == 0 then {} else Targets(folder, k - 1) + {ImageTarget(folder, k)}
  }

  lemma {:induction false} TargetsAreImages(folder: string, k: nat)
    ensures forall x :: x in Targets(folder, k) ==> IsImage(x)
  {
    if k > 0 {
      TargetsAreImages(folder, k - 1);
      ImageTargetIsImage(folder, k);
      forall x | x in Targets(folder, k) ensures IsImage(x) {
        assert x in Targets(folder, k - 1) || x == ImageTarget(folder, k);
      }
    }
  }

  lemma {:induction false} NotInTargets(folder: string, k: nat, x: string)
    requires forall i :: 1 <= i <= k ==> ImageTarget(folder, i) != x
    ensures x !in Targets(folder, k)
  {
    if k > 0 {
      NotInTargets(folder, k - 1, x);
    }
  }

  /** Positions 1 to k get k different names. */
  lemma {:induction false} TargetsCard(folder: string, k: nat)
    ensures |Targets(folder, k)| == k
  {
    if k > 0 {
      TargetsCard(folder, k - 1);
      TargetFresh(folder, k);
    }
  }

  lemma TargetFresh(folder: string, k: nat)
    requires k > 0
    ensures ImageTarget(folder, k) !in Targets(folder, k - 1)
  {
    forall i | 1 <= i <= k - 1 ensures ImageTarget(folder, i) != ImageTarget(folder, k) {
      ImageTargetInjective(folder, i, k);
    }
    NotInTargets(folder, k - 1, ImageTarget(folder, k));
  }

  lemma LexLeIsOrder()
    ensures TotalPreorder(LexLe) && Antisymmetric(LexLe)
  {
    forall a, b ensures LexLe(a, b) || LexLe(b, a) {
      LexLeTotal(a, b);
    }
    forall a, b, c | LexLe(a, b) && LexLe(b, c) ensures LexLe(a, c) {
      LexLeTransitive(a, b, c);
    }
    forall a, b | LexLe(a, b) && LexLe(b, a) ensures a == b {
      LexLeAntisymmetric(a, b);
    }
  }

  /** Some listing of a finite set, in an order nobody relies on. */
  ghost function Enumerate(s: set<string>): (r: seq<string>)
    ensures multiset(r) == multiset(s)
    decreases s
  {
    if s == {} then []
    else
      var x :| x in s;
      var r := [x] + Enumerate(s - {x});
      assert multiset(s) == multiset{x} + multiset(s - {x}) by {
        assert s == {x} + (s - {x});
      }
      r
  }

  /** `sorted(folder_path.glob("*.webp"))`: every `.webp` name once, in
      string order. */
  ghost function Snapshot(names: set<string>): (r: seq<string>)
    ensures multiset(r) == multiset(Images(names))
    ensures Sorted(r, LexLe) && Distinct(r)
  {
    var r := Sort(Enumerate(Images(names)), LexLe);
    LexLeIsOrder();
    SortSorted(Enumerate(Images(names)), LexLe);
    CountsDistinct(r);
    r
  }

  /** Whatever order the directory lists the `.webp` names in, sorting them
      gives the snapshot. */
  lemma SnapshotOfListing(names: set<string>, listing: seq<string>)
    requires multiset(listing) == multiset(Images(names))
    ensures Sort(listing, LexLe) == Snapshot(names)
  {
    LexLeIsOrder();
    SortSorted(listing, LexLe);
    SortedUnique(Sort(listing, LexLe), Snapshot(names), LexLe);
  }

  lemma SnapshotOfSorted(names: set<string>, s: seq<string>)
    requires Sorted(s, LexLe) && multiset(s) == multiset(Images(names))
    ensures Snapshot(names) == s
  {
    LexLeIsOrder();
    SortedUnique(s, Snapshot(names), LexLe);
  }

  /** The `.mp4` file a run looked at: none exactly when the folder has no
      `.mp4` file, otherwise one of them. */
  predicate VideoChoice(names: set<string>, video: Option<string>) {
    (video.None? <==> Videos(names) == {}) &&
    (video.Some? ==> video.value in Videos(names))
  }

  /** The names after a whole run on one folder, given the `.mp4` file that
      enumeration listed first, if any. */
  ghost function FolderAfter(names: set<string>, folder: string, video: Option<string>): set<string> {
    VideoAfter(ImagesAfter(names, Snapshot(names), folder), video, folder)
  }

  /** Every snapshot file is still present when its turn comes: earlier
      steps only rename their own file, and never onto a present name. */
  lemma {:induction false} PendingPresent(names: set<string>, s: seq<string>, folder: string, i: nat)
    requires Distinct(s) && (forall k :: 0 <= k < |s| ==> s[k] in names)
    requires i <= |s|
    ensures forall k :: i <= k < |s| ==> s[k] in ImagesAfter(names, s[..i], folder)
  {
    if i > 0 {
      PendingPresent(names, s, folder, i - 1);
      assert s[..i][..i - 1] == s[..i - 1];
    }
  }

  /** Renaming neither creates nor loses files: the count is unchanged. */
  lemma {:induction false} ImagesAfterCount(names: set<string>, s: seq<string>, folder: string)
    requires Distinct(s) && (forall k :: 0 <= k < |s| ==> s[k] in names)
    ensures |ImagesAfter(names, s, folder)| == |names|
  {
    if s != [] {
      var p := s[..|s| - 1];
      assert Distinct(p) && forall k :: 0 <= k < |p| ==> p[k] in names;
      ImagesAfterCount(names, p, folder);
      PendingPresent(names, s, folder, |s| - 1);
      AttemptCount(ImagesAfter(names, p, folder), s[|s| - 1], ImageTarget(folder, |s|));
    }
  }

  /** Nothing else changes: names outside the snapshot stay, and every new
      name is one of the image targets. */
  lemma {:induction false} ImagesAfterFrame(names: set<string>, s: seq<string>, folder: string)
    ensures ImagesAfter(names, s, folder) - names <= Targets(folder, |s|)
    ensures forall x :: x in names && x !in s ==> x in ImagesAfter(names, s, folder)
  {
    if s != [] {
      var p := s[..|s| - 1];
      ImagesAfterFrame(names, p, folder);
      assert Targets(folder, |p|) <= Targets(folder, |s|);
      assert ImageTarget(folder, |s|) in Targets(folder, |s|);
      forall x | x in names && x !in s ensures x in ImagesAfter(names, s, folder) {
        assert x !in p by {
          forall k | 0 <= k < |p| ensures p[k] != x { assert p[k] == s[k]; }
        }
        assert x != s[|s| - 1];
      }
    }
  }

  /** The image loop leaves every name that is not a `.webp` name alone, so
      the `.mp4` names listed before it are still there after it. */
  lemma ImagesAfterKeepsOthers(names: set<string>, s: seq<string>, folder: string)
    requires forall k :: 0 <= k < |s| ==> IsImage(s[k])
    ensures forall x :: !IsImage(x) ==> (x in ImagesAfter(names, s, folder) <==> x in names)
  {
    ImagesAfterFrame(names, s, folder);
    forall x | !IsImage(x) ensures x in ImagesAfter(names, s, folder) <==> x in names {
      assert x !in s by {
        forall k | 0 <= k < |s| ensures s[k] != x { }
      }
    }
  }

  /** The `.mp4` names listed before the image loop are all still present
      after it, so the video step finds its file. */
  lemma VideosAfterImages(names: set<string>, folder: string, videos: seq<string>)
    requires multiset(videos) == multiset(Videos(names))
    ensures videos == [] <==> Videos(names) == {}
    ensures videos != [] ==> videos[0] in Videos(names)
    ensures forall x :: x in videos ==> IsVideo(x) && x in ImagesAfter(names, Snapshot(names), folder)
  {
    var s := Snapshot(names);
    assert forall k :: 0 <= k < |s| ==> IsImage(s[k]) by {
      forall k | 0 <= k < |s| ensures IsImage(s[k]) {
        assert s[k] in multiset(Images(names));
      }
    }
    ImagesAfterKeepsOthers(names, s, folder);
    forall x | x in videos ensures IsVideo(x) && x in ImagesAfter(names, s, folder) {
      assert x in multiset(Videos(names));
      ImageNotVideo(x);
    }
    if videos != [] {
      assert videos[0] in multiset(videos);
    } else {
      assert |Videos(names)| == |multiset(Videos(names))| == 0;
    }
  }

  /** When every target is already taken, the loop renames nothing and the
      folder is unchanged. */
  lemma {:induction false} ImagesUnchangedWhenTargetsTaken(names: set<string>, s: seq<string>, folder: string)
    requires forall i :: 1 <= i <= |s| ==> ImageTarget(folder, i) in names
    ensures ImagesAfter(names, s, folder) == names
    ensures forall k :: 0 <= k < |s| ==> Classify(ImagesAfter(names, s[..k], folder), s[k], ImageTarget(folder, k + 1)) != Renamed
  {
    if s != [] {
      var p := s[..|s| - 1];
      ImagesUnchangedWhenTargetsTaken(names, p, folder);
      forall k | 0 <= k < |s|
        ensures Classify(ImagesAfter(names, s[..k], folder), s[k], ImageTarget(folder, k + 1)) != Renamed
      {
        if k < |p| {
          assert s[..k] == p[..k] && s[k] == p[k];
        } else {
          assert s[..k] == p;
        }
      }
    }
  }

  /** Idempotence: a folder that already holds exactly `figure_N_img_1..k.webp`
      and either `figure_N_video.mp4` or no `.mp4` at all is left as it is,
      whichever `.mp4` is listed first. */
  lemma FolderIdempotent(names: set<string>, folder: string, k: nat, video: Option<string>)
    requires Images(names) == Targets(folder, k)
    requires VideoTarget(folder) in names || video.None?
    ensures FolderAfter(names, folder, video) == names
  {
    var s := Snapshot(names);
    TargetsCard(folder, k);
    assert |s| == |multiset(s)| == |multiset(Images(names))| == k;
    forall i | 1 <= i <= |s| ensures ImageTarget(folder, i) in names {
      assert ImageTarget(folder, i) in Targets(folder, k);
    }
    ImagesUnchangedWhenTargetsTaken(names, s, folder);
  }

  function Elements(s: seq<string>): set<string> {
    set x | x in s
  }

  /** One step of the loop that is not a collision, on sets: the file is
      either already named correctly or moves to its absent target. */
  lemma NoCollisionStep(names: set<string>, done: set<string>, taken: set<string>, x: string, t: string)
    requires x in names && x !in done && x !in taken
    requires Classify(names - done + taken, x, t) != Collision
    ensures Attempt(names - done + taken, x, t) == names - (done + {x}) + (taken + {t})
  {
  }

  /** No step of the image loop over `s` finds its target held by another
      file (`s` lists present names, once each). */
  ghost predicate NoCollision(names: set<string>, s: seq<string>, folder: string) {
    Distinct(s) && (forall k :: 0 <= k < |s| ==> s[k] in names) &&
    forall k :: 0 <= k < |s| ==>
      Classify(ImagesAfter(names, s[..k], folder), s[k], ImageTarget(folder, k + 1)) != Collision
  }

  /** Without collisions, position i ends as `figure_N_img_i.webp`: the
      snapshot names are replaced by the targets 1 to |s|. This includes runs
      in which an earlier rename frees the target of a later file. */
  lemma {:induction false} ImagesAfterNoCollision(names: set<string>, s: seq<string>, folder: string)
    requires NoCollision(names, s, folder)
    ensures ImagesAfter(names, s, folder) == names - Elements(s) + Targets(folder, |s|)
  {
    if s != [] {
      var p := s[..|s| - 1];
      NoCollisionPrefix(names, s, folder);
      ImagesAfterNoCollision(names, p, folder);
      var x, t := s[|s| - 1], ImageTarget(folder, |s|);
      NoCollisionLast(names, s, folder);
      ElementsLast(s);
      assert ImagesAfter(names, s, folder) == Attempt(ImagesAfter(names, p, folder), x, t);
      assert Classify(ImagesAfter(names, p, folder), x, t) != Collision;
      NoCollisionStep(names, Elements(p), Targets(folder, |p|), x, t);
    }
  }

  lemma NoCollisionPrefix(names: set<string>, s: seq<string>, folder: string)
    requires NoCollision(names, s, folder) && s != []
    ensures NoCollision(names, s[..|s| - 1], folder)
  {
    var p := s[..|s| - 1];
    forall k | 0 <= k < |p|
      ensures p[k] == s[k] && p[..k] == s[..k]
    {
    }
  }

  /** The last file of a collision-free run is present, was not handled
      before, and is no earlier position's target. */
  lemma NoCollisionLast(names: set<string>, s: seq<string>, folder: string)
    requires NoCollision(names, s, folder) && s != []
    ensures s[|s| - 1] in names
    ensures s[|s| - 1] !in Elements(s[..|s| - 1])
    ensures s[|s| - 1] !in Targets(folder, |s| - 1)
  {
    var n := |s|;
    var p, x := s[..n - 1], s[n - 1];
    forall k | 0 <= k < |p| ensures p[k] != x {
      assert p[k] == s[k];
    }
    LastNotTarget(names, s, folder);
  }

  /** Had the last file been the target of an earlier position i, that
      earlier step would have found its target held by this file. */
  lemma LastNotTarget(names: set<string>, s: seq<string>, folder: string)
    requires NoCollision(names, s, folder) && s != []
    ensures s[|s| - 1] !in Targets(folder, |s| - 1)
  {
    var n := |s|;
    var x := s[n - 1];
    forall i | 1 <= i <= n - 1 ensures ImageTarget(folder, i) != x {
      PendingPresent(names, s, folder, i - 1);
      assert x in ImagesAfter(names, s[..i - 1], folder);
      assert s[i - 1] != x;
    }
    NotInTargets(folder, n - 1, x);
  }

  /** The elements of a non-empty sequence are those of its prefix plus its
      last element. */
  lemma ElementsLast(s: seq<string>)
    requires s != []
    ensures Elements(s) == Elements(s[..|s| - 1]) + {s[|s| - 1]}
  {
    assert s == s[..|s| - 1] + [s[|s| - 1]];
  }

  /** The no-collision case for a whole folder: when no image step reports a
      collision, its `.webp` names become exactly `figure_N_img_1..n.webp`,
      n the number of `.webp` files it held. */
  lemma FolderNoCollision(names: set<string>, folder: string, video: Option<string>)
    requires var s := Snapshot(names);
      forall k :: 0 <= k < |s| ==>
        Classify(ImagesAfter(names, s[..k], folder), s[k], ImageTarget(folder, k + 1)) != Collision
    requires video.Some? ==> IsVideo(video.value)
    ensures Images(FolderAfter(names, folder, video)) == Targets(folder, |Images(names)|)
  {
    var s := Snapshot(names);
    var m := |Images(names)|;
    SnapshotElements(names);
    ImagesAfterNoCollision(names, s, folder);
    TargetsAreImages(folder, m);
    ImagesReplaced(names, Targets(folder, m));
  }

  lemma SnapshotElements(names: set<string>)
    ensures Elements(Snapshot(names)) == Images(names)
    ensures |Snapshot(names)| == |Images(names)|
    ensures Distinct(Snapshot(names)) && forall k :: 0 <= k < |Snapshot(names)| ==> Snapshot(names)[k] in names
  {
    var s := Snapshot(names);
    forall y ensures y in s <==> y in Images(names) {
      assert y in s <==> y in multiset(s);
    }
    forall k | 0 <= k < |s| ensures s[k] in names {
      assert s[k] in s;
    }
    assert |s| == |multiset(s)|;
  }

  lemma ImagesReplaced(names: set<string>, t: set<string>)
    requires forall x :: x in t ==> IsImage(x)
    ensures Images(names - Images(names) + t) == t
  {
  }

  /** A whole run on one folder neither creates nor loses files. */
  lemma FolderAfterCount(names: set<string>, folder: string, video: Option<string>)
    requires VideoChoice(names, video)
    ensures |FolderAfter(names, folder, video)| == |names|
  {
    var s := Snapshot(names);
    var after := ImagesAfter(names, s, folder);
    SnapshotElements(names);
    ImagesAfterCount(names, s, folder);
    if video.Some? {
      var v := video.value;
      ImageNotVideo(v);
      assert forall k :: 0 <= k < |s| ==> IsImage(s[k]) by {
        forall k | 0 <= k < |s| ensures IsImage(s[k]) {
          assert s[k] in Elements(s);
        }
      }
      ImagesAfterKeepsOthers(names, s, folder);
      AttemptCount(after, v, VideoTarget(folder));
    }
  }
}
