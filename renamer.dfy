/** The script itself: a folder whose names change in place as files are
    renamed, `rename_files_in_folder` as a method on it, and `main`'s loop
    over the numbered folders. Each method is proved against the functions
    of RenameSpec. */
module Renamer {
  import opened FileNames
  import opened Sorting
  import opened FolderSelection
  import opened RenameSpec

  /** A directory, seen as the set of its file names. */
  class Folder {
    var names: set<string>

    constructor (initial: set<string>)
      ensures names == initial
    {
      names := initial;
    }

    /** `glob("*" + suffix)`: each matching name once, in the directory's own
        enumeration order, which is not specified (here: any order). */
    method Glob(suffix: string) returns (listing: seq<string>)
      ensures multiset(listing) == multiset(Matching(names, suffix))
    {
      listing := [];
      var rest := Matching(names, suffix);
      while rest != {}
        invariant multiset(listing) + multiset(rest) == multiset(Matching(names, suffix))
        decreases |rest|
      {
        var x :| x in rest;
        listing := listing + [x];
        assert rest == (rest - {x}) + {x};
        rest := rest - {x};
      }
    }

    /** `Path.rename` inside one folder, used only where it cannot overwrite. */
    method Rename(from: string, to: string)
      requires from in names && to !in names
      modifies this
      ensures names == old(names) - {from} + {to}
    {
      names := names - {from} + {to};
    }

    /** `rename_files_in_folder(folder, folder_number)`. Returns the `.mp4`
        file that the video step looked at: the first one enumerated. */
    method RenameFilesInFolder(folder: string) returns (video: Option<string>)
      modifies this
      ensures VideoChoice(old(names), video)
      ensures names == FolderAfter(old(names), folder, video)
    {
      ghost var before := names;
      var listing := Glob(".webp");
      var images := Sort(listing, LexLe);
      var videos := Glob(".mp4");
      SnapshotOfListing(before, listing);
      SnapshotElements(before);
      RenameImages(folder, images);
      VideosAfterImages(before, folder, videos);
      video := RenameVideo(folder, videos);
    }

    /** The image loop: position i + 1 of the snapshot gets its target unless
        it has it already or the target is taken. */
    method RenameImages(folder: string, images: seq<string>)
      requires Distinct(images) && forall k :: 0 <= k < |images| ==> images[k] in names
      modifies this
      ensures names == ImagesAfter(old(names), images, folder)
    {
      ghost var before := names;
      var i := 0;
      while i < |images|
        invariant 0 <= i <= |images|
        invariant names == ImagesAfter(before, images[..i], folder)
      {
        var target := ImageTarget(folder, i + 1);
        PendingPresent(before, images, folder, i);
        if images[i] != target {
          if target !in names {
            Rename(images[i], target);
          }
          // otherwise another file holds the target name: skipped
        }
        assert images[..i + 1][..i] == images[..i];
        i := i + 1;
      }
      assert images[..|images|] == images;
    }

    /** The video step: the first enumerated `.mp4` file, if any, gets the
        video target unless it has it already or the target is taken. */
    method RenameVideo(folder: string, videos: seq<string>) returns (video: Option<string>)
      requires forall x :: x in videos ==> x in names && IsVideo(x)
      modifies this
      ensures video.None? <==> videos == []
      ensures video.Some? ==> video.value == videos[0]
      ensures names == VideoAfter(old(names), video, folder)
    {
      if |videos| > 0 {
        video := Some(videos[0]);
        var target := VideoTarget(folder);
        if videos[0] != target {
          if target !in names {
            Rename(videos[0], target);
          }
        }
      } else {
        video := None;
      }
    }
  }

  /** `main`: every numbered folder in order of its value, each renamed with
      its own name as folder number. A selected name with no folder behind it
      is skipped, as the existence check at the top of the per-folder
      function does. */
  method RenameAll(entries: seq<Entry>, dirs: map<string, Folder>)
      returns (order: seq<DigitName>, videos: map<string, Option<string>>)
    requires DistinctNames(entries)
    requires forall a, b :: a in dirs && b in dirs && a != b ==> dirs[a] != dirs[b]
    modifies dirs.Values
    ensures order == SelectFolders(entries)
    ensures forall a :: a in dirs && a !in order ==> dirs[a].names == old(dirs[a].names)
    ensures forall a :: a in dirs && a in order ==>
      a in videos && VideoChoice(old(dirs[a].names), videos[a]) &&
      dirs[a].names == FolderAfter(old(dirs[a].names), a, videos[a])
  {
    order := SelectFolders(entries);
    SelectFoldersMembers(entries);
    videos := RenameEach(order, dirs);
  }

  /** `main`'s loop over the selected names, in order. */
  method RenameEach(order: seq<string>, dirs: map<string, Folder>) returns (videos: map<string, Option<string>>)
    requires Distinct(order)
    requires forall a, b :: a in dirs && b in dirs && a != b ==> dirs[a] != dirs[b]
    modifies dirs.Values
    ensures forall a :: a in dirs && a !in order ==> dirs[a].names == old(dirs[a].names)
    ensures forall a :: a in dirs && a in order ==>
      a in videos && VideoChoice(old(dirs[a].names), videos[a]) &&
      dirs[a].names == FolderAfter(old(dirs[a].names), a, videos[a])
  {
    ghost var initial := NamesOf(dirs);
    videos := map[];
    var i := 0;
    while i < |order|
      invariant 0 <= i <= |order|
      invariant forall a :: a in videos <==> a in dirs && a in order[..i]
      invariant NamesOf(dirs) == Expected(initial, videos)
      invariant forall a :: a in videos ==> VideoChoice(initial[a], videos[a])
    {
      var name := order[i];
      assert order[..i + 1] == order[..i] + [name];
      if name in dirs {
        assert name !in order[..i];
        assert NamesOf(dirs)[name] == dirs[name].names && Expected(initial, videos)[name] == initial[name];
        var v := RenameOne(dirs, name);
        ExpectedStep(initial, videos, name, v);
        videos := videos[name := v];
      }
      i := i + 1;
    }
    assert order[..|order|] == order;
    forall a | a in dirs
      ensures dirs[a].names == NamesOf(dirs)[a] && old(dirs[a].names) == initial[a]
    {
    }
  }

  /** The names held by each folder of the base directory. */
  ghost function NamesOf(dirs: map<string, Folder>): map<string, set<string>>
    reads dirs.Values
  {
    map a | a in dirs :: dirs[a].names
  }

  /** The names each folder should hold once the folders in `videos` have
      been processed (each with the video its run looked at). */
  ghost function Expected(initial: map<string, set<string>>, videos: map<string, Option<string>>): map<string, set<string>>
  {
    map a | a in initial :: if a in videos then FolderAfter(initial[a], a, videos[a]) else initial[a]
  }

  lemma ExpectedStep(initial: map<string, set<string>>, videos: map<string, Option<string>>, name: string, v: Option<string>)
    requires name in initial && name !in videos
    ensures Expected(initial, videos[name := v])
         == Expected(initial, videos)[name := FolderAfter(initial[name], name, v)]
  {
  }

  /** One turn of `main`'s loop: only the named folder changes. */
  method RenameOne(dirs: map<string, Folder>, name: string) returns (video: Option<string>)
    requires name in dirs
    requires forall a, b :: a in dirs && b in dirs && a != b ==> dirs[a] != dirs[b]
    modifies dirs[name]
    ensures VideoChoice(old(dirs[name].names), video)
    ensures NamesOf(dirs) == old(NamesOf(dirs))[name := FolderAfter(old(dirs[name].names), name, video)]
  {
    video := dirs[name].RenameFilesInFolder(name);
  }
}
