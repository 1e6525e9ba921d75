/** Concrete runs of the per-folder renaming, and what string order does to
    folders with ten or more images. */
module Scenarios {
  import opened FileNames
  import opened Sorting
  import opened RenameSpec

  /** A common prefix does not change the order of two strings. */
  lemma {:induction false} LexLeCommonPrefix(p: string, a: string, b: string)
    ensures LexLe(p + a, p + b) == LexLe(a, b)
    decreases |p|
  {
    if p == [] {
      assert p + a == a && p + b == b;
    } else {
      assert (p + a)[0] == p[0] == (p + b)[0];
      assert (p + a)[1..] == p[1..] + a && (p + b)[1..] == p[1..] + b;
      LexLeCommonPrefix(p[1..], a, b);
    }
  }

  /** In string order `figure_N_img_1.webp` < `figure_N_img_10.webp` <
      `figure_N_img_2.webp`, all three different. */
  lemma TenBeforeTwo(folder: string)
    ensures LexLe(ImageTarget(folder, 1), ImageTarget(folder, 10)) && !LexLe(ImageTarget(folder, 10), ImageTarget(folder, 1))
    ensures LexLe(ImageTarget(folder, 10), ImageTarget(folder, 2)) && !LexLe(ImageTarget(folder, 2), ImageTarget(folder, 10))
    ensures LexLe(ImageTarget(folder, 1), ImageTarget(folder, 2)) && !LexLe(ImageTarget(folder, 2), ImageTarget(folder, 1))
  {
    var p := TargetPrefix + folder + ImageInfix;
    assert NatToString(1) == "1" && NatToString(2) == "2";
    assert NatToString(10) == "10";
    var one, two, ten := "1.webp", "2.webp", "10.webp";
    assert ImageTarget(folder, 1) == p + one;
    assert ImageTarget(folder, 2) == p + two;
    assert ImageTarget(folder, 10) == p + ten;
    LexLeCommonPrefix(p, one, ten);
    LexLeCommonPrefix(p, ten, one);
    LexLeCommonPrefix(p, ten, two);
    LexLeCommonPrefix(p, two, ten);
    LexLeCommonPrefix(p, one, two);
    LexLeCommonPrefix(p, two, one);
    assert one[1..] == ".webp" && ten[1..] == "0.webp";
    assert LexLe(one, ten) && !LexLe(ten, one);
    assert LexLe(ten, two) && !LexLe(two, ten);
    assert LexLe(one, two) && !LexLe(two, one);
  }

  /** A folder already named `figure_N_img_1..k.webp` with k >= 10 is left
      unchanged, yet position 2 of the snapshot does not hold
      `..._img_2.webp` (a target that sorts before it, such as
      `..._img_10.webp`, is there), so its target is present and the loop
      reports a collision rather than an already correct name. */
  lemma TenImagesReportCollision(names: set<string>, folder: string, k: nat)
    requires Images(names) == Targets(folder, k) && k >= 10
    ensures var s := Snapshot(names);
      |s| == k && ImagesAfter(names, s, folder) == names &&
      s[1] != ImageTarget(folder, 2) &&
      Classify(ImagesAfter(names, s[..1], folder), s[1], ImageTarget(folder, 2)) == Collision
  {
    var s := Snapshot(names);
    TargetsCard(folder, k);
    assert |s| == |multiset(s)| == |multiset(Images(names))| == k;
    forall i | 1 <= i <= |s| ensures ImageTarget(folder, i) in names {
      assert ImageTarget(folder, i) in Targets(folder, k);
    }
    ImagesUnchangedWhenTargetsTaken(names, s, folder);
    ImagesUnchangedWhenTargetsTaken(names, s[..1], folder);
    var t1, t2, t10 := ImageTarget(folder, 1), ImageTarget(folder, 2), ImageTarget(folder, 10);
    TenBeforeTwo(folder);
    assert t1 in multiset(s) && t10 in multiset(s);
    var j1 :| 0 <= j1 < |s| && s[j1] == t1;
    var j10 :| 0 <= j10 < |s| && s[j10] == t10;
    var m := if j1 > j10 then j1 else j10;
    if m >= 2 {
      assert LexLe(s[1], s[m]);
    } else {
      assert s[1] == s[m];
    }
  }

  lemma TargetsOfThree()
    ensures ImageTarget("3", 1) == "figure_3_img_1.webp"
    ensures ImageTarget("3", 2) == "figure_3_img_2.webp"
    ensures VideoTarget("3") == "figure_3_video.mp4"
  {
    assert NatToString(1) == "1" && NatToString(2) == "2";
  }

  /** The two steps of the image loop on a two-file snapshot. */
  lemma TwoSteps(names: set<string>, s: seq<string>, folder: string)
    requires |s| == 2
    ensures ImagesAfter(names, s, folder)
         == Attempt(Attempt(names, s[0], ImageTarget(folder, 1)), s[1], ImageTarget(folder, 2))
  {
    var p := s[..1];
    assert p == [s[0]] && p[..0] == [];
    assert ImagesAfter(names, p, folder) == Attempt(names, s[0], ImageTarget(folder, 1));
  }

  /** Folder 3 holding `b.webp`, `a.webp` and `clip.mp4`. */
  lemma ExampleFolder()
    ensures FolderAfter({"b.webp", "a.webp", "clip.mp4"}, "3", Some("clip.mp4"))
         == {"figure_3_img_1.webp", "figure_3_img_2.webp", "figure_3_video.mp4"}
  {
    var names := {"b.webp", "a.webp", "clip.mp4"};
    var s := ["a.webp", "b.webp"];
    ExampleFolderSnapshot();
    TargetsOfThree();
    TwoSteps(names, s, "3");
    assert "a.webp"[0] != "b.webp"[0];
    ThreeRenames("a.webp", "b.webp", "clip.mp4", "figure_3_img_1.webp", "figure_3_img_2.webp", "figure_3_video.mp4");
  }

  /** Two images and a video, none holding a target name, all renamed. */
  lemma ThreeRenames(a: string, b: string, v: string, t1: string, t2: string, tv: string)
    requires a != b && a != v && b != v && t1 != t2 && t1 != tv && t2 != tv
    requires a != t1 && a != t2 && a != tv && b != t1 && b != t2 && b != tv
    requires v != t1 && v != t2 && v != tv
    ensures Attempt(Attempt(Attempt({b, a, v}, a, t1), b, t2), v, tv) == {t1, t2, tv}
  {
    var s1 := Attempt({b, a, v}, a, t1);
    assert s1 == {b, t1, v};
    var s2 := Attempt(s1, b, t2);
    assert s2 == {t1, t2, v};
  }

  lemma ExampleFolderSnapshot()
    ensures Snapshot({"b.webp", "a.webp", "clip.mp4"}) == ["a.webp", "b.webp"]
  {
    var names := {"b.webp", "a.webp", "clip.mp4"};
    var s := ["a.webp", "b.webp"];
    assert IsImage("a.webp") && IsImage("b.webp");
    assert !IsImage("clip.mp4") by { assert "clip.mp4"[3] != ".webp"[0]; }
    assert Images(names) == {"a.webp", "b.webp"};
    assert LexLe("a.webp", "b.webp");
    SnapshotOfSorted(names, s);
  }

  /** Folder 3 holding `b.webp` and `figure_3_img_1.webp`: `b.webp` comes
      first and finds its target taken; the correctly named file is then
      moved on to the second position's name. */
  lemma ExampleCollision()
    ensures FolderAfter({"b.webp", "figure_3_img_1.webp"}, "3", None)
         == {"b.webp", "figure_3_img_2.webp"}
  {
    var names := {"b.webp", "figure_3_img_1.webp"};
    var s := ["b.webp", "figure_3_img_1.webp"];
    assert IsImage("b.webp") && IsImage("figure_3_img_1.webp");
    assert LexLe("b.webp", "figure_3_img_1.webp");
    TwoImageSnapshot("b.webp", "figure_3_img_1.webp");
    TargetsOfThree();
    TwoSteps(names, s, "3");
    CollisionThenShift("b.webp", "figure_3_img_1.webp", "figure_3_img_2.webp");
  }

  /** The first file's target is held by the second file, which is then
      renamed to the next target. */
  lemma CollisionThenShift(b: string, t1: string, t2: string)
    requires b != t1 && b != t2 && t1 != t2
    ensures Classify({b, t1}, b, t1) == Collision
    ensures Attempt(Attempt({b, t1}, b, t1), t1, t2) == {b, t2}
  {
  }


  /** Folder 3 holding `figure_3_img_2.webp` and `zzz.webp`: the first file
      moves to image 1, which frees image 2 for `zzz.webp`. No step collides. */
  lemma ExampleFreedTarget()
    ensures FolderAfter({"figure_3_img_2.webp", "zzz.webp"}, "3", None)
         == {"figure_3_img_1.webp", "figure_3_img_2.webp"}
  {
    var names := {"figure_3_img_2.webp", "zzz.webp"};
    var s := ["figure_3_img_2.webp", "zzz.webp"];
    assert IsImage("figure_3_img_2.webp") && IsImage("zzz.webp");
    assert LexLe("figure_3_img_2.webp", "zzz.webp");
    TwoImageSnapshot("figure_3_img_2.webp", "zzz.webp");
    TargetsOfThree();
    TwoSteps(names, s, "3");
    FreedTarget("figure_3_img_2.webp", "zzz.webp", "figure_3_img_1.webp");
  }

  /** The first file holds the second position's target and moves to the
      first position's; the second file then takes the freed name. */
  lemma FreedTarget(a: string, z: string, t1: string)
    requires a != z && a != t1 && z != t1
    ensures Classify({a, z}, a, t1) == Renamed
    ensures Classify({t1, z}, z, a) == Renamed
    ensures Attempt(Attempt({a, z}, a, t1), z, a) == {t1, a}
  {
    assert Attempt({a, z}, a, t1) == {t1, z};
  }

  /** A folder of two images has those two, in string order, as its snapshot. */
  lemma TwoImageSnapshot(a: string, b: string)
    requires IsImage(a) && IsImage(b) && LexLe(a, b) && a != b
    ensures Snapshot({a, b}) == [a, b]
  {
    assert Images({a, b}) == {a, b};
    assert multiset([a, b]) == multiset({a, b});
    SnapshotOfSorted({a, b}, [a, b]);
  }
}
