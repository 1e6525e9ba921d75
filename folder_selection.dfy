/** Which subfolders of the base directory are processed, and in what order:
    the directories whose name is all digits, ordered by the integer value
    of the name. The name itself is the folder number used in target names. */
module FolderSelection {
  import opened FileNames
  import opened Sorting

  /** One entry of the base directory's listing. */
  datatype Entry = Entry(name: string, isDir: bool)

  predicate IsNumberedFolder(e: Entry) {
    e.isDir && IsDigitName(e.name)
  }

  /** The listing never holds two entries with the same name. */
  predicate DistinctNames(entries: seq<Entry>) {
    forall i, j :: 0 <= i < j < |entries| ==> entries[i].name != entries[j].name
  }

  /** The list comprehension's filter: numbered folders, in listing order. */
  function NumberedFolders(entries: seq<Entry>): (r: seq<DigitName>)
    ensures forall x :: x in r <==> exists i :: 0 <= i < |entries| && IsNumberedFolder(entries[i]) && entries[i].name == x
    ensures DistinctNames(entries) ==> Distinct(r)
  {
    if entries == [] then []
    else
      var rest := NumberedFolders(entries[1..]);
      assert forall i :: 1 <= i < |entries| ==> entries[1..][i - 1] == entries[i];
      assert DistinctNames(entries) ==> DistinctNames(entries[1..]) && entries[0].name !in rest;
      if IsNumberedFolder(entries[0]) then [entries[0].name] + rest else rest
  }

  /** The sort key: `int(name)`. */
  predicate ByValue(a: DigitName, b: DigitName) {
    DigitValue(a) <= DigitValue(b)
  }

  /** `sorted([...], key=lambda x: int(x.name))`, as folder names. */
  function SelectFolders(entries: seq<Entry>): seq<DigitName> {
    Sort(NumberedFolders(entries), ByValue)
  }

  lemma ByValueTotalPreorder()
    ensures TotalPreorder(ByValue)
  {
  }

  /** Exactly the numbered folders are selected, each once, named verbatim. */
  lemma SelectFoldersMembers(entries: seq<Entry>)
    ensures forall x :: x in SelectFolders(entries) <==>
      exists i :: 0 <= i < |entries| && IsNumberedFolder(entries[i]) && entries[i].name == x
    ensures DistinctNames(entries) ==> Distinct(SelectFolders(entries))
  {
    var s := NumberedFolders(entries);
    forall x ensures x in SelectFolders(entries) <==> x in s {
      assert x in SelectFolders(entries) <==> x in multiset(SelectFolders(entries));
    }
    if DistinctNames(entries) {
      DistinctPermutation(s, SelectFolders(entries));
    }
  }

  /** Ascending by integer value, so "2" comes before "10". */
  lemma SelectFoldersOrdered(entries: seq<Entry>)
    ensures forall i, j :: 0 <= i < j < |SelectFolders(entries)| ==>
      DigitValue(SelectFolders(entries)[i]) <= DigitValue(SelectFolders(entries)[j])
  {
    ByValueTotalPreorder();
    SortSorted(NumberedFolders(entries), ByValue);
  }

  /** Folders whose names have the same value ("1", "01") keep their listing order. */
  lemma SelectFoldersStable(entries: seq<Entry>, k: DigitName)
    ensures EquivalentTo(SelectFolders(entries), k, ByValue) == EquivalentTo(NumberedFolders(entries), k, ByValue)
  {
    ByValueTotalPreorder();
    SortStable(NumberedFolders(entries), k, ByValue);
  }

  /** Folders "2", "10" and "1", a file "3" and a folder "a" give "1", "2", "10". */
  lemma SelectFoldersExample()
    ensures SelectFolders([Entry("2", true), Entry("10", true), Entry("1", true), Entry("3", false), Entry("a", true)])
         == ["1", "2", "10"]
  {
    ExampleFilter();
    ExampleSort();
  }

  lemma ExampleFilter()
    ensures NumberedFolders([Entry("2", true), Entry("10", true), Entry("1", true), Entry("3", false), Entry("a", true)])
         == ["2", "10", "1"]
  {
    var entries := [Entry("2", true), Entry("10", true), Entry("1", true), Entry("3", false), Entry("a", true)];
    assert !IsDigitName("a") by { assert !IsDigit("a"[0]); }
    assert NumberedFolders(entries[4..]) == [];
    assert NumberedFolders(entries[3..]) == [];
    assert NumberedFolders(entries[2..]) == ["1"];
    assert NumberedFolders(entries[1..]) == ["10", "1"];
  }

  lemma ExampleSort()
    ensures var one: DigitName, two: DigitName, ten: DigitName := "1", "2", "10";
      Sort([two, ten, one], ByValue) == [one, two, ten]
  {
    var one: DigitName, two: DigitName, ten: DigitName := "1", "2", "10";
    ExampleKeys();
    SortPair(ten, one);
    assert [two, ten, one][1..] == [ten, one];
    InsertBetween(two, one, ten);
  }

  lemma ExampleKeys()
    ensures !ByValue("10", "1") && !ByValue("2", "1") && ByValue("2", "10")
  {
    var ten := "10";
    assert DigitValue("1") == 1 && DigitValue("2") == 2;
    assert DigitValue(ten) == 10 by { assert ten[..1] == "1"; }
  }

  lemma SortPair(a: DigitName, b: DigitName)
    requires !ByValue(a, b)
    ensures Sort([a, b], ByValue) == [b, a]
  {
    assert [a, b][1..] == [b] && [b][1..] == [];
    assert Sort([b], ByValue) == [b];
    assert Insert(a, [b], ByValue) == [b] + Insert(a, [], ByValue);
  }

  lemma InsertBetween(x: DigitName, a: DigitName, b: DigitName)
    requires !ByValue(x, a) && ByValue(x, b)
    ensures Insert(x, [a, b], ByValue) == [a, x, b]
  {
    assert [a, b][1..] == [b];
  }
}
