# Figure asset renaming, modelled in Dafny

The repository holds figure assets in numbered folders (`1/`, `2/`, `10/`, …)
and a script, `assets/figure/rename_files.py`, that gives their files canonical names:

- In folder N, the `.webp` images, taken in name order, become
  `figure_N_img_1.webp`, `figure_N_img_2.webp`, …
- One `.mp4` file becomes `figure_N_video.mp4`.
- A file that already has its name is left alone.
- A file whose target name is held by another file is skipped. Nothing is
  ever overwritten.

`main` processes every all-digit subdirectory in order of its integer value.

This project models that script on an abstract filesystem. A folder is the
set of its file names, and the base directory is a list of
(name, is-directory) entries. Modules:

- `FileNames`:
  - digit names and `int(name)`;
  - `str(i)` and its inverse;
  - the two target-name patterns;
  - the `.webp` / `.mp4` globs as suffix tests (`Matching`: the names in
    the folder that end with the suffix);
  - Python's string order `LexLe`, proved total, transitive and antisymmetric.
- `Sorting`: Python's `sorted` as a stable insertion sort. It is proved to
  keep the multiset, to sort, to be stable, and to give the only sorted
  arrangement under an antisymmetric order.
- `FolderSelection`: the filter and sort of `main`.
- `RenameSpec`: the per-folder renaming as functions of the name set:
  - one rename attempt (`Attempt`);
  - the image loop over the snapshot (`ImagesAfter`);
  - the video step (`VideoAfter`);
  - a whole run (`FolderAfter`).

  It also holds the lemmas about them.
- `Renamer`: the imperative script:
  - a `Folder` class whose `names` field the methods update in place through
    `Rename`, which requires its target to be absent;
  - `RenameFilesInFolder`, with its image loop and video step;
  - `main`'s loop over the selected folders.

  Each method is proved equal to the corresponding `RenameSpec` function.
- `Scenarios`:
  - worked runs on concrete folders;
  - what string order does to folders with ten or more images.

The order in which the directory lists files is not specified.
`Folder.Glob` therefore lists matching names in an arbitrary order. For
images this does not matter: `RenameSpec.SnapshotOfListing` proves that
sorting any listing gives the same snapshot. For the video it does matter:
`RenameFilesInFolder` returns the `.mp4` name it looked at, and its
postcondition is stated in terms of that choice.

In the branch where the file's name differs from its target, the existence
test at line 38 (`new_path.exists() and new_path != img_file`) and its
`video_file` twin at line 53
compare two paths in the same folder. So it is simply "the target name is
present", which is what `Classify` tests.

One might expect a correctly named folder to report every file as already
correct. The code does not do that once a folder holds ten or more
images. The snapshot is sorted as strings, so `figure_N_img_10.webp`
comes before `figure_N_img_2.webp` (`Scenarios.TenBeforeTwo`). Position 2
then holds some other target, and its own target is present, so that file
is reported as a collision. No name changes, so the folder is still left as it was.
`Scenarios.TenImagesReportCollision` states this, and the model follows the
code.

## Model

| member | source | states |
|---|---|---|
| FileNames.IsDigitName | assets/figure/rename_files.py:72 | definition: `str.isdigit()` on ASCII, a non-empty string of digits |
| FileNames.DigitValue | assets/figure/rename_files.py:73 | definition: `int(name)` for a digit string |
| FileNames.NatToString | assets/figure/rename_files.py:33 | definition: `str(idx)`, the decimal text of an index |
| FileNames.ImageTarget | assets/figure/rename_files.py:33 | definition: `f"figure_{folder_number}_img_{idx}.webp"` |
| FileNames.VideoTarget | assets/figure/rename_files.py:49 | definition: `f"figure_{folder_number}_video.mp4"` |
| FileNames.LexLe | assets/figure/rename_files.py:22 | definition: Python's `<=` on strings, code point by code point with a proper prefix first |
| FolderSelection.SelectFolders | assets/figure/rename_files.py:71-73 | definition: the digit-named directories sorted by `int(name)` |
| RenameSpec.Classify | assets/figure/rename_files.py:36-40 | definition: the branch taken for one file (already correct, collision, or rename) |
| RenameSpec.ImagesAfter | assets/figure/rename_files.py:32-42 | definition: the names after the image loop has handled a prefix of the snapshot, each step seeing the earlier renames |
| RenameSpec.FolderAfter | assets/figure/rename_files.py:13-61 | definition: the names after a whole run on one folder, given the `.mp4` file the run looked at |
| RenameSpec.VideoChoice | assets/figure/rename_files.py:25-48 | definition: the video looked at is none exactly when the folder has no `.mp4` file, otherwise one of them |
| FileNames.DigitValueOfNatToString | assets/figure/rename_files.py:33 | the decimal text of an index is all digits and reads back as the same number |
| FileNames.NatToStringDigits | assets/figure/rename_files.py:33 | the text of an index is a non-empty digit string with no leading zero unless it is 0 |
| FileNames.NatToStringInjective | assets/figure/rename_files.py:33 | different indices have different texts |
| FileNames.DigitValueLeadingZero | assets/figure/rename_files.py:73 | `int(name)` ignores a leading zero, so "01" and "1" have the same key |
| FileNames.ImageNotVideo | assets/figure/rename_files.py:22-25 | no name is matched by both the `.webp` and the `.mp4` glob |
| FileNames.ImageTargetIsImage | assets/figure/rename_files.py:33 | `figure_N_img_i.webp` is matched by the image glob and not by the video glob |
| FileNames.VideoTargetIsVideo | assets/figure/rename_files.py:49 | `figure_N_video.mp4` is matched by the video glob and not by the image glob |
| FileNames.ImageTargetInjective | assets/figure/rename_files.py:33 | within one folder, two positions never share an image target name |
| FileNames.LexLeTotal | assets/figure/rename_files.py:22 | any two names are comparable in Python's string order |
| FileNames.LexLeTransitive | assets/figure/rename_files.py:22 | Python's string order is transitive |
| FileNames.LexLeAntisymmetric | assets/figure/rename_files.py:22 | names that are each ordered before the other are equal |
| Sorting.Insert | assets/figure/rename_files.py:22 | inserting into the sorted list adds exactly one occurrence of the element |
| Sorting.Sort | assets/figure/rename_files.py:22 | `sorted` returns a permutation of its input |
| Sorting.SortSorted | assets/figure/rename_files.py:22 | under a total preorder, `sorted`'s result is in order |
| Sorting.SortStable | assets/figure/rename_files.py:71-73 | elements with equal keys keep their input order |
| Sorting.SortedUnique | assets/figure/rename_files.py:22 | under an antisymmetric order, two sorted sequences with the same elements are equal |
| Sorting.DistinctPermutation | assets/figure/rename_files.py:22 | a rearrangement of a list without repeats has no repeats |
| FolderSelection.NumberedFolders | assets/figure/rename_files.py:71-72 | exactly the directory entries with an all-digit name are kept; with distinct entry names, each is kept once |
| FolderSelection.SelectFoldersMembers | assets/figure/rename_files.py:71-73 | the selected names are exactly the all-digit directory names, verbatim and without repeats |
| FolderSelection.SelectFoldersOrdered | assets/figure/rename_files.py:73 | selected folders are in ascending order of `int(name)` |
| FolderSelection.SelectFoldersStable | assets/figure/rename_files.py:71-73 | folders with the same value ("1", "01") keep their listing order |
| FolderSelection.SelectFoldersExample | assets/figure/rename_files.py:71-73 | folders "2", "10", "1", a file "3" and a folder "a" give "1", "2", "10" |
| RenameSpec.Attempt | assets/figure/rename_files.py:36-44 | an already-correct or colliding file leaves the names unchanged; otherwise exactly the file goes and its absent target comes, so nothing is overwritten |
| RenameSpec.AttemptCount | assets/figure/rename_files.py:41 | after an attempt on a present file the target is present and the number of files is the same |
| RenameSpec.VideoAfter | assets/figure/rename_files.py:47-61 | with no `.mp4` file nothing changes; the video step never changes the set of `.webp` names |
| RenameSpec.VideoAtMostOne | assets/figure/rename_files.py:47-61 | the video step removes at most one name and adds at most one |
| RenameSpec.Targets | assets/figure/rename_files.py:32-33 | the targets of positions 1 to k include `figure_N_img_i.webp` for each i |
| RenameSpec.TargetsCard | assets/figure/rename_files.py:32-33 | positions 1 to k get k different target names |
| RenameSpec.Snapshot | assets/figure/rename_files.py:22 | the snapshot lists every `.webp` name once, in string order |
| RenameSpec.SnapshotOfListing | assets/figure/rename_files.py:22 | sorting the glob's listing gives the snapshot, whatever order the directory lists names in |
| RenameSpec.PendingPresent | assets/figure/rename_files.py:22-42 | every snapshot file not yet processed is still present when its turn comes |
| RenameSpec.ImagesAfterCount | assets/figure/rename_files.py:32-42 | the image loop neither creates nor loses files |
| RenameSpec.ImagesAfterFrame | assets/figure/rename_files.py:32-42 | every name the image loop adds is an image target, and names outside the snapshot stay |
| RenameSpec.ImagesAfterKeepsOthers | assets/figure/rename_files.py:32-42 | the image loop leaves every non-`.webp` name as it was |
| RenameSpec.VideosAfterImages | assets/figure/rename_files.py:25-48 | the `.mp4` list is empty exactly when the folder has no `.mp4` file, and its files are all still present after the image loop |
| RenameSpec.ImagesUnchangedWhenTargetsTaken | assets/figure/rename_files.py:32-44 | when every target name is already present, no image is renamed and the folder is unchanged |
| RenameSpec.FolderIdempotent | assets/figure/rename_files.py:32-61 | a folder holding exactly `figure_N_img_1..k.webp`, and either `figure_N_video.mp4` or no `.mp4` file, is left unchanged by a run |
| RenameSpec.ImagesAfterNoCollision | assets/figure/rename_files.py:32-42 | when no step of the image loop is a collision (including runs where an earlier rename frees a later target), the snapshot names are replaced by exactly the targets 1 to n |
| RenameSpec.NoCollisionLast | assets/figure/rename_files.py:32-42 | in a collision-free run, the last file is present, not handled before, and no earlier position's target |
| RenameSpec.FolderNoCollision | assets/figure/rename_files.py:22-61 | when no image step is a collision, the folder's `.webp` names after a run are exactly `figure_N_img_1..n.webp`, n the number of images it held |
| RenameSpec.FolderAfterCount | assets/figure/rename_files.py:32-61 | a whole run, with the video it looked at chosen as the script chooses it, neither creates nor loses files |
| RenameSpec.SnapshotElements | assets/figure/rename_files.py:22 | the snapshot holds exactly the folder's `.webp` names, once each |
| Renamer.Folder.Glob | assets/figure/rename_files.py:22-25 | the listing holds each matching name exactly once |
| Renamer.Folder.Rename | assets/figure/rename_files.py:41-56 | a rename replaces the file's name by an absent target name and changes nothing else |
| Renamer.Folder.RenameFilesInFolder | assets/figure/rename_files.py:13-61 | the folder ends as `FolderAfter` of its initial names; the video looked at is a `.mp4` file, and there is none exactly when the folder has no `.mp4` |
| Renamer.Folder.RenameImages | assets/figure/rename_files.py:32-44 | the image loop, renaming in place, ends with the names `ImagesAfter` computes from the snapshot |
| Renamer.Folder.RenameVideo | assets/figure/rename_files.py:47-61 | the first listed `.mp4` file, if any, is the one handled, and the names end as `VideoAfter` computes |
| Renamer.RenameAll | assets/figure/rename_files.py:71-79 | the folders are processed in selection order; each selected folder ends as `FolderAfter` of its initial names, with the video looked at being none exactly when it had no `.mp4` and otherwise one of its `.mp4` files; every other folder is untouched |
| Renamer.RenameEach | assets/figure/rename_files.py:77-79 | the loop over the selected names runs each folder once with its own name as folder number, each with a video chosen from its own `.mp4` files, leaving the rest unchanged |
| Renamer.RenameOne | assets/figure/rename_files.py:79 | one turn of the loop changes only the named folder, which ends as `FolderAfter` with a video chosen from its own `.mp4` files |
| Scenarios.TenImagesReportCollision | assets/figure/rename_files.py:22-39 | in a correctly named folder with ten or more images, position 2 of the snapshot does not hold `..._img_2.webp` (a target that sorts earlier, such as `_img_10`, is there), so its target is present and the step is a collision, while no name changes |
| Scenarios.TenBeforeTwo | assets/figure/rename_files.py:22-33 | in string order `..._img_1` < `..._img_10` < `..._img_2` |
| Scenarios.ExampleFolder | assets/figure/rename_files.py:13-61 | folder 3 with `b.webp`, `a.webp`, `clip.mp4` ends with `figure_3_img_1.webp`, `figure_3_img_2.webp`, `figure_3_video.mp4` |
| Scenarios.ExampleCollision | assets/figure/rename_files.py:32-42 | folder 3 with `b.webp` and `figure_3_img_1.webp` ends with `b.webp` and `figure_3_img_2.webp`: the first file collides, the second moves up |
| Scenarios.ExampleFreedTarget | assets/figure/rename_files.py:32-42 | folder 3 with `figure_3_img_2.webp` and `zzz.webp` ends with `figure_3_img_1.webp` and `figure_3_img_2.webp`: the first rename frees the second target |
| Scenarios.FreedTarget | assets/figure/rename_files.py:36-42 | a file holding the next position's target moves to its own, and the next file then takes the freed name without a collision |
| Scenarios.CollisionThenShift | assets/figure/rename_files.py:36-42 | a file whose target is held by the next file is skipped, and the next file then moves to its own target |

## Left out

- Console output (every `print`) is informational and not modelled.
- `Path(__file__).parent` and the operating-system calls `exists`, `is_dir`,
  `iterdir`, `glob` and `rename` are replaced by the set-of-names model.
  `main`'s folders are given as a map from folder name to `Folder`.
- The early return at lines 17-19 for a missing folder is modelled only in
  `main`'s loop: a selected name with no `Folder` behind it is skipped.
- Renamer.Folder.RenameFilesInFolder: the `.mp4` file chosen is whichever the
  directory lists first. The model leaves that order arbitrary and states
  the result relative to the returned choice.
- Renamer.RenameAll: requires distinct entry names and a distinct `Folder`
  object per name. Symlinks or aliases that make two names share one folder
  are not modelled.
- Filesystem errors from `rename` are not modelled. The script does not
  handle them either.
- Platform path semantics are not modelled:
  - case-insensitive file systems and Windows path comparison;
  - directories whose names end in `.webp` or `.mp4`, which `glob` would list;
  - subdirectories inside numbered folders.
- FileNames.IsDigitName: accepts ASCII `0`-`9` only. The non-ASCII digits
  that `str.isdigit` also accepts are not modelled.
- FileNames.LexLe: compares `char` values, which agrees with Python's
  code-point order for every name representable in Dafny's `char`.
