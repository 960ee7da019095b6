/**
 * The file packager: walk a source tree, keep the files with one of the given
 * extensions, check the requested count, sample that many files without
 * replacement, copy them into the output folder and write two listings of
 * them: `readme.md` in selection order and `index.html` sorted.
 */
module Packer {
  import opened Strings
  import opened Wrappers
  import opened Paths
  import opened StringOrder

  /**
   * The extension answer: `input(...).split(',')`, then
   * `extensions if extensions[0] else None`. A blank answer is `['']`, i.e. no filter.
   */
  function ExtensionFilter(answer: string): Option<seq<string>>
  {
    var extensions := Split(answer, ',');
    if extensions[0] != "" then Some(extensions) else None
  }

  /** There is no filter exactly when the answer is blank or starts with a comma. */
  lemma NoFilterWhenFirstPieceBlank(answer: string)
    ensures ExtensionFilter(answer).None? <==> |answer| == 0 || answer[0] == ','
  {
  }

  /** A filter holds the answer's pieces verbatim: joined back with commas they are the answer. */
  lemma ExtensionFilterKeepsAnswer(answer: string)
    requires ExtensionFilter(answer).Some?
    ensures Join(ExtensionFilter(answer).value, ",") == answer
  {
    JoinSplit(answer, ',');
  }

  /** `get_all_files`: the nested loop over the walk, appending each kept file's joined path. */
  method GetAllFiles(listing: seq<WalkEntry>, extensions: Option<seq<string>>) returns (filesList: seq<string>)
    ensures filesList == Walk(listing, extensions)
  {
    filesList := [];
    for e := 0 to |listing|
      invariant filesList == Walk(listing[..e], extensions)
    {
      var root, files := listing[e].root, listing[e].files;
      for f := 0 to |files|
        invariant filesList == Walk(listing[..e], extensions) + DirPaths(root, files[..f], extensions)
      {
        var file := files[f];
        if extensions.None? || EndsWithAny(file, extensions.value) {
          filesList := filesList + [PathJoin(root, file)];
        }
        assert files[..f + 1][..f] == files[..f];
      }
      assert files[..|files|] == files;
      assert listing[..e + 1][..e] == listing[..e];
    }
    assert listing[..|listing|] == listing;
  }

  predicate Distinct<T(==)>(s: seq<T>)
  {
    forall i, j :: 0 <= i < j < |s| ==> s[i] != s[j]
  }

  /** The entries of `population` at the given positions, in the order of the positions. */
  function Select(population: seq<string>, positions: seq<nat>): (s: seq<string>)
    requires forall i :: 0 <= i < |positions| ==> positions[i] < |population|
    ensures |s| == |positions|
  {
    seq(|positions|, i requires 0 <= i < |positions| => population[positions[i]])
  }

  /**
   * `random.sample(population, k)`: any `k` distinct positions of the
   * population, in any order, and the entries found there.
   */
  method Sample(population: seq<string>, k: nat) returns (selected: seq<string>, positions: seq<nat>)
    requires k <= |population|
    ensures |positions| == k && Distinct(positions)
    ensures forall i :: 0 <= i < k ==> positions[i] < |population|
    ensures selected == Select(population, positions)
  {
    var first := seq(k, i requires 0 <= i < k => i as nat);
    assert Distinct(first) && forall i :: 0 <= i < k ==> first[i] < |population|;
    positions :| |positions| == k && Distinct(positions) && forall i :: 0 <= i < k ==> positions[i] < |population|;
    selected := Select(population, positions);
  }

  /** Dropping the one position that points at the last entry leaves distinct positions inside the rest of the population. */
  lemma DropLastPosition(population: seq<string>, positions: seq<nat>, p: nat)
    requires forall i :: 0 <= i < |positions| ==> positions[i] < |population|
    requires Distinct(positions)
    requires p < |positions| && positions[p] == |population| - 1
    ensures var rest := positions[..p] + positions[p + 1..];
      Distinct(rest) && (forall i :: 0 <= i < |rest| ==> rest[i] < |population| - 1) &&
      multiset(Select(population, positions)) ==
        multiset(Select(population[..|population| - 1], rest)) + multiset{population[|population| - 1]}
  {
    var n := |population| - 1;
    var rest := positions[..p] + positions[p + 1..];
    forall i | 0 <= i < |rest| ensures rest[i] == positions[if i < p then i else i + 1] {
    }
    assert Distinct(rest) by {
      forall i, j | 0 <= i < j < |rest| ensures rest[i] != rest[j] {
        var i', j' := if i < p then i else i + 1, if j < p then j else j + 1;
        assert rest[i] == positions[i'] && rest[j] == positions[j'];
      }
    }
    var sel := Select(population, positions);
    assert sel == sel[..p] + [population[n]] + sel[p + 1..];
    assert Select(population[..n], rest) == sel[..p] + sel[p + 1..];
  }

  /** Entries taken from distinct positions never use an entry more often than the population holds it. */
  lemma {:induction false} SelectSubMultiset(population: seq<string>, positions: seq<nat>)
    requires forall i :: 0 <= i < |positions| ==> positions[i] < |population|
    requires Distinct(positions)
    ensures multiset(Select(population, positions)) <= multiset(population)
    decreases |population|
  {
    if |population| == 0 {
      assert forall i :: 0 <= i < |positions| ==> positions[i] < 0;
    } else {
      var n := |population| - 1;
      var init := population[..n];
      assert population == init + [population[n]];
      if p :| 0 <= p < |positions| && positions[p] == n {
        DropLastPosition(population, positions, p);
        SelectSubMultiset(init, positions[..p] + positions[p + 1..]);
      } else {
        assert Select(population, positions) == Select(init, positions);
        SelectSubMultiset(init, positions);
      }
    }
  }

  const ReadmeHeader: string := "# List of Files\n"
  const IndexPrefix: string := "<html><head><title>Index</title></head><body>"
  const IndexSuffix: string := "</body></html>"
  const IndexName: string := "index.html"
  const ReadmeName: string := "readme.md"

  /** The link written for one copied file. */
  function Link(fileName: string): string
  {
    "<a href=\"" + fileName + "\">" + fileName + "</a>"
  }

  /** The Markdown bullet lines, one per name, in order. */
  function MdLines(names: seq<string>): string
  {
    if |names| == 0 then ""
    else MdLines(names[..|names| - 1]) + "- " + names[|names| - 1] + "\n"
  }

  /** The bullet lines of a concatenation are the bullet lines of each part, in order. */
  lemma {:induction false} MdLinesAppend(a: seq<string>, b: seq<string>)
    ensures MdLines(a + b) == MdLines(a) + MdLines(b)
    decreases |b|
  {
    if |b| == 0 {
      assert a + b == a;
    } else {
      var ab, init, line := a + b, b[..|b| - 1], "- " + b[|b| - 1] + "\n";
      assert ab[..|ab| - 1] == a + init && ab[|ab| - 1] == b[|b| - 1];
      MdLinesAppend(a, init);
      assert MdLines(ab) == MdLines(a + init) + line;
      assert MdLines(b) == MdLines(init) + line;
    }
  }

  /** The basenames of the selected files, in selection order. */
  function Names(selected: seq<string>): (ns: seq<string>)
    ensures |ns| == |selected|
  {
    seq(|selected|, i requires 0 <= i < |selected| => Basename(selected[i]))
  }

  function Links(names: seq<string>): (ls: seq<string>)
    ensures |ls| == |names|
  {
    seq(|names|, i requires 0 <= i < |names| => Link(names[i]))
  }

  /** The text of `readme.md`. */
  function Readme(names: seq<string>): string
  {
    ReadmeHeader + MdLines(names)
  }

  /** The text of `index.html`: the links in ascending order, separated by `<br>`. */
  function IndexHtml(links: seq<string>): string
  {
    IndexPrefix + Join(SortStrings(links), "<br>") + IndexSuffix
  }

  /** Where `shutil.copy` puts a selected file: the output folder joined with its basename. */
  function OutputPath(outputFolder: string, file: string): string
  {
    PathJoin(outputFolder, Basename(file))
  }

  /**
   * The output folder's copied files after copying the selection in order:
   * each output path maps to the selected file it was copied from (a later
   * copy to the same path overwrites an earlier one).
   */
  function Copies(selected: seq<string>, outputFolder: string): map<string, string>
  {
    if |selected| == 0 then map[]
    else
      var file := selected[|selected| - 1];
      Copies(selected[..|selected| - 1], outputFolder)[OutputPath(outputFolder, file) := file]
  }

  /** The two listing files, written into the output folder after the copies. */
  function ListingFiles(outputFolder: string): set<string>
  {
    {PathJoin(outputFolder, IndexName), PathJoin(outputFolder, ReadmeName)}
  }

  /** Copying one more selected file adds one link, one bullet line and one copy to what came before. */
  lemma ListingStep(selected: seq<string>, outputFolder: string, i: nat)
    requires i < |selected|
    ensures Links(Names(selected[..i + 1])) == Links(Names(selected[..i])) + [Link(Basename(selected[i]))]
    ensures Readme(Names(selected[..i + 1])) == Readme(Names(selected[..i])) + "- " + Basename(selected[i]) + "\n"
    ensures Copies(selected[..i + 1], outputFolder) ==
      Copies(selected[..i], outputFolder)[PathJoin(outputFolder, Basename(selected[i])) := selected[i]]
  {
    var names := Names(selected[..i + 1]);
    assert selected[..i + 1][..i] == selected[..i];
    assert names == Names(selected[..i]) + [Basename(selected[i])];
    assert names[..|names| - 1] == Names(selected[..i]);
  }

  /**
   * The listing loop: copy each selected file, collect its link and its
   * bullet line, then sort the links and wrap them in the page.
   */
  method BuildListings(selected: seq<string>, outputFolder: string)
    returns (readme: string, index: string, copies: map<string, string>)
    ensures readme == Readme(Names(selected))
    ensures index == IndexHtml(Links(Names(selected)))
    ensures copies == Copies(selected, outputFolder) - ListingFiles(outputFolder)
  {
    var htmlLinks: seq<string> := [];
    var mdContent := ReadmeHeader;
    copies := map[];
    for i := 0 to |selected|
      invariant htmlLinks == Links(Names(selected[..i]))
      invariant mdContent == Readme(Names(selected[..i]))
      invariant copies == Copies(selected[..i], outputFolder)
    {
      ListingStep(selected, outputFolder, i);
      var file := selected[i];
      var fileName := Basename(file);
      var outputFilePath := PathJoin(outputFolder, fileName);
      copies := copies[outputFilePath := file];
      htmlLinks := htmlLinks + [Link(fileName)];
      mdContent := mdContent + "- " + fileName + "\n";
    }
    assert selected[..|selected|] == selected;
    htmlLinks := SortStrings(htmlLinks);
    index := IndexPrefix + Join(htmlLinks, "<br>") + IndexSuffix;
    readme := mdContent;
    // writing the two listings replaces any copy that sits at their paths
    copies := copies - ListingFiles(outputFolder);
  }

  /**
   * Every selected file has a copy at its output path, and that copy holds the
   * last selected file with that output path.
   */
  lemma {:induction false} CopiesLastWins(selected: seq<string>, outputFolder: string, i: nat)
    requires i < |selected|
    ensures OutputPath(outputFolder, selected[i]) in Copies(selected, outputFolder)
    ensures (forall j :: i < j < |selected| ==> OutputPath(outputFolder, selected[j]) != OutputPath(outputFolder, selected[i]))
            ==> Copies(selected, outputFolder)[OutputPath(outputFolder, selected[i])] == selected[i]
    decreases |selected|
  {
    var n := |selected| - 1;
    if i < n {
      var init := selected[..n];
      CopiesLastWins(init, outputFolder, i);
      assert init[i] == selected[i];
      assert forall j :: i < j < n ==> init[j] == selected[j];
    }
  }

  /** The copied files are exactly the output paths of the selection. */
  lemma {:induction false} CopiesKeys(selected: seq<string>, outputFolder: string)
    ensures Copies(selected, outputFolder).Keys == set i | 0 <= i < |selected| :: OutputPath(outputFolder, selected[i])
    decreases |selected|
  {
    if |selected| > 0 {
      var n := |selected| - 1;
      var init := selected[..n];
      CopiesKeys(init, outputFolder);
      assert forall i :: 0 <= i < n ==> init[i] == selected[i];
      assert (set i | 0 <= i < |selected| :: OutputPath(outputFolder, selected[i])) ==
             (set i | 0 <= i < n :: OutputPath(outputFolder, init[i])) + {OutputPath(outputFolder, selected[n])};
    }
  }

  /** At most one copied file per selected file. */
  lemma {:induction false} CopiesAtMostSelected(selected: seq<string>, outputFolder: string)
    ensures |Copies(selected, outputFolder).Keys| <= |selected|
    decreases |selected|
  {
    if |selected| > 0 {
      CopiesAtMostSelected(selected[..|selected| - 1], outputFolder);
    }
  }

  /**
   * Two selected files with the same basename leave fewer copied files than
   * selected ones, while each listing still has one entry per selected file.
   */
  lemma {:induction false} SameBasenameCollides(selected: seq<string>, outputFolder: string, i: nat, j: nat)
    requires i < j < |selected| && Basename(selected[i]) == Basename(selected[j])
    ensures |Copies(selected, outputFolder).Keys| < |selected|
    ensures |Names(selected)| == |Links(Names(selected))| == |selected|
    decreases |selected|
  {
    var n := |selected| - 1;
    var init := selected[..n];
    if j == n {
      CopiesLastWins(init, outputFolder, i);
      assert init[i] == selected[i];
      CopiesAtMostSelected(init, outputFolder);
      assert Copies(selected, outputFolder).Keys == Copies(init, outputFolder).Keys;
    } else {
      SameBasenameCollides(init, outputFolder, i, j);
    }
  }

  /**
   * A selected file's copy survives the run exactly when its basename is
   * neither `index.html` nor `readme.md`; a copy under either name is
   * overwritten by the listing written to that path.
   */
  lemma ListingsReplaceCopies(selected: seq<string>, outputFolder: string, i: nat)
    requires i < |selected|
    ensures OutputPath(outputFolder, selected[i]) in Copies(selected, outputFolder) - ListingFiles(outputFolder)
            <==> Basename(selected[i]) != IndexName && Basename(selected[i]) != ReadmeName
  {
    var name := Basename(selected[i]);
    CopiesLastWins(selected, outputFolder, i);
    if name != IndexName && name != ReadmeName {
      BasenameOfJoin(outputFolder, name);
      BasenameOfJoin(outputFolder, IndexName);
      BasenameOfJoin(outputFolder, ReadmeName);
    }
  }

  datatype PackError = SourceMissing | InvalidCount | TooManyRequested

  /**
   * What a successful run leaves in the output folder: the selection, the
   * copies still there once the listings are written, and the two listings.
   */
  datatype Package = Package(selected: seq<string>, copies: map<string, string>, readme: string, index: string)

  /**
   * The script's top level. The user's answers are inputs: whether the source
   * folder exists, the extension answer, the count as parsed by `int()` (`None`
   * when it raises) and the output folder. Every abort happens before anything
   * is selected, created or written, so an error carries no package.
   */
  method Pack(sourceExists: bool, listing: seq<WalkEntry>, extensionsAnswer: string,
              count: Option<int>, outputFolder: string)
    returns (r: Result<Package, PackError>)
    requires count.Some? ==> count.value >= 0
    ensures !sourceExists ==> r == Err(SourceMissing)
    ensures sourceExists && count.None? ==> r == Err(InvalidCount)
    ensures sourceExists && count.Some? ==>
      (r == Err(TooManyRequested) <==> count.value > |Walk(listing, ExtensionFilter(extensionsAnswer))|)
    ensures sourceExists && count.Some? ==>
      (r.Ok? <==> count.value <= |Walk(listing, ExtensionFilter(extensionsAnswer))|)
    ensures r.Ok? ==>
      var candidates := Walk(listing, ExtensionFilter(extensionsAnswer));
      var p := r.value;
      |p.selected| == count.value &&
      multiset(p.selected) <= multiset(candidates) &&
      p.readme == Readme(Names(p.selected)) &&
      p.index == IndexHtml(Links(Names(p.selected))) &&
      p.copies == Copies(p.selected, outputFolder) - ListingFiles(outputFolder)
  {
    if !sourceExists {
      return Err(SourceMissing);
    }
    var extensions := ExtensionFilter(extensionsAnswer);
    if count.None? {
      return Err(InvalidCount);
    }
    var numFilesToPick: nat := count.value;
    var allFiles := GetAllFiles(listing, extensions);
    if numFilesToPick > |allFiles| {
      return Err(TooManyRequested);
    }
    var selectedFiles, positions := Sample(allFiles, numFilesToPick);
    SelectSubMultiset(allFiles, positions);
    var readme, index, copies := BuildListings(selectedFiles, outputFolder);
    r := Ok(Package(selectedFiles, copies, readme, index));
  }
}
