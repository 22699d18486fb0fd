/** `BundleFilesByLanguage`: resolve the language, list the matching files,
    order them, and assemble the lines of the bundle. The directory listing,
    the file reads and the final write are inputs and outputs here: a listing
    per glob pattern, a map from path to text, and the returned lines. */
module Bundler {
  import opened Results
  import opened Text
  import opened Ordering
  import opened Languages

  // ---------------------------------------------------------------------
  // The shape of a bundle
  // ---------------------------------------------------------------------

  /** The first line when an author is given. */
  function AuthorBanner(author: string): string
  {
    "//---------author: " + author + " -----------"
  }

  /** The line before a file's content when notes are asked for. */
  function NoteBanner(path: string): string
  {
    "//--------------" + path + "----------------"
  }

  /** What one file contributes as content: its text, verbatim or with its
      zero-length lines removed. */
  function Content(text: string, removeEmptyLines: bool, nl: Newline): string
  {
    if removeEmptyLines then StripEmptyLines(text, nl) else text
  }

  function Header(author: string): seq<string>
  {
    if author != "" then [AuthorBanner(author)] else []
  }

  function FileBlock(path: string, text: string, note: bool, removeEmptyLines: bool, nl: Newline): seq<string>
  {
    (if note then [NoteBanner(path)] else []) + [Content(text, removeEmptyLines, nl)]
  }

  /** Every listed file can be read. */
  predicate AllReadable(files: seq<string>, contents: map<string, string>)
  {
    forall i :: 0 <= i < |files| ==> files[i] in contents
  }

  /** The blocks of all files, in the order given. */
  function Blocks(files: seq<string>, contents: map<string, string>, note: bool, removeEmptyLines: bool, nl: Newline): seq<string>
    requires AllReadable(files, contents)
    decreases |files|
  {
    if files == [] then []
    else
      var last := files[|files| - 1];
      Blocks(files[..|files| - 1], contents, note, removeEmptyLines, nl)
        + FileBlock(last, contents[last], note, removeEmptyLines, nl)
  }

  /** The lines the bundler writes for `files` when every one can be read. */
  function BundleLines(files: seq<string>, contents: map<string, string>, note: bool, removeEmptyLines: bool,
                       author: string, nl: Newline): seq<string>
    requires AllReadable(files, contents)
  {
    Header(author) + Blocks(files, contents, note, removeEmptyLines, nl)
  }

  /** The index of the first file that cannot be read, or `|files|`. */
  function FirstUnreadable(files: seq<string>, contents: map<string, string>): (k: nat)
    ensures k <= |files|
    ensures forall j :: 0 <= j < k ==> files[j] in contents
    ensures k < |files| ==> files[k] !in contents
  {
    if files == [] then 0
    else if files[0] !in contents then 0
    else 1 + FirstUnreadable(files[1..], contents)
  }

  /** The directory listing of every pattern in turn, concatenated; a file
      two patterns match is taken twice. */
  function Matches(patterns: seq<string>, listing: string -> seq<string>): seq<string>
  {
    if patterns == [] then [] else listing(patterns[0]) + Matches(patterns[1..], listing)
  }

  // ---------------------------------------------------------------------
  // The pipeline
  // ---------------------------------------------------------------------

  /** `BundleFilesByLanguage`. `languages` is the registry, `listing(p)` what
      the directory listing returns for pattern `p`, `contents` the text of
      each readable file; `files` is the order in which the files were taken. */
  method BundleFilesByLanguage(languages: map<string, seq<string>>, language: string,
                               listing: string -> seq<string>, contents: map<string, string>,
                               note: bool, removeEmptyLines: bool, author: string, sort: bool, nl: Newline)
    returns (r: Result<seq<string>>, files: seq<string>)
    ensures language !in languages ==> r == Err(UnsupportedLanguage(language)) && files == []
    ensures language in languages ==>
              var matched := Matches(languages[language], listing);
              && multiset(files) == multiset(matched)
              && (sort ==> SortedByExtension(files))
              && (!sort ==> files == SortTheFileAlph(matched))
    ensures language in languages ==>
              var k := FirstUnreadable(files, contents);
              if k < |files| then r == Err(ReadFailure(files[k]))
              else AllReadable(files, contents) && r == Ok(BundleLines(files, contents, note, removeEmptyLines, author, nl))
  {
    var found := GetSearchPatternsByLanguage(languages, language);
    if found.Err? {
      return found, [];
    }
    var searchPatterns := found.value;
    files := Matches(searchPatterns, listing);
    if sort {
      var matched := files;
      var a := new string[|matched|](i requires 0 <= i < |matched| => matched[i]);
      assert a[..] == matched;
      SortTheFileByTypeOfCode(a);
      files := a[..];
    } else {
      files := SortTheFileAlph(files);
    }
    r := AssembleBundle(files, contents, note, removeEmptyLines, author, nl);
  }

  /** The loop of `BundleFilesByLanguage` that fills `allTextFiles`: the
      author banner, then per file its note banner and its content. A file
      that cannot be read stops the whole request. */
  method AssembleBundle(files: seq<string>, contents: map<string, string>,
                        note: bool, removeEmptyLines: bool, author: string, nl: Newline)
    returns (r: Result<seq<string>>)
    ensures var k := FirstUnreadable(files, contents);
            if k < |files| then r == Err(ReadFailure(files[k]))
            else AllReadable(files, contents) && r == Ok(BundleLines(files, contents, note, removeEmptyLines, author, nl))
  {
    var allTextFiles: seq<string> := [];
    if author != "" {
      allTextFiles := allTextFiles + [AuthorBanner(author)];
    }
    var i := 0;
    while i < |files|
      invariant 0 <= i <= |files|
      invariant AllReadable(files[..i], contents)
      invariant allTextFiles == BundleLines(files[..i], contents, note, removeEmptyLines, author, nl)
    {
      var file := files[i];
      if file !in contents {
        FirstUnreadableAt(files, contents, i);
        return Err(ReadFailure(file));
      }
      assert AllReadable(files[..i + 1], contents);
      BundleLinesStep(files, contents, note, removeEmptyLines, author, nl, i);
      var text := contents[file];
      if note {
        allTextFiles := allTextFiles + [NoteBanner(file)];
      }
      if removeEmptyLines {
        text := StripEmptyLines(text, nl);
      }
      allTextFiles := allTextFiles + [text];
      i := i + 1;
    }
    assert files[..i] == files;
    FirstUnreadableAt(files, contents, |files|);
    r := Ok(allTextFiles);
  }


  /** The first unreadable file is the first one the loop fails on. */
  lemma FirstUnreadableAt(files: seq<string>, contents: map<string, string>, i: nat)
    requires i <= |files| && AllReadable(files[..i], contents)
    requires i < |files| ==> files[i] !in contents
    ensures FirstUnreadable(files, contents) == i
  {
  }

  /** Taking one more file appends that file's block. */
  lemma BundleLinesStep(files: seq<string>, contents: map<string, string>, note: bool, removeEmptyLines: bool,
                        author: string, nl: Newline, i: nat)
    requires i < |files| && AllReadable(files[..i + 1], contents)
    ensures AllReadable(files[..i], contents) && files[i] in contents
    ensures BundleLines(files[..i + 1], contents, note, removeEmptyLines, author, nl)
         == BundleLines(files[..i], contents, note, removeEmptyLines, author, nl)
            + FileBlock(files[i], contents[files[i]], note, removeEmptyLines, nl)
  {
    assert files[..i + 1][..i] == files[..i];
    assert files[..i + 1][i] == files[i];
  }

  // ---------------------------------------------------------------------
  // What a bundle looks like
  // ---------------------------------------------------------------------

  /** Lines per file: the content, and the note banner when asked for. */
  function Width(note: bool): nat
  {
    if note then 2 else 1
  }

  lemma {:induction false} BlocksLength(files: seq<string>, contents: map<string, string>, note: bool,
                                        removeEmptyLines: bool, nl: Newline)
    requires AllReadable(files, contents)
    ensures |Blocks(files, contents, note, removeEmptyLines, nl)| == |files| * Width(note)
    decreases |files|
  {
    if files != [] {
      BlocksLength(files[..|files| - 1], contents, note, removeEmptyLines, nl);
    }
  }

  /** The output has one line for the author banner when an author is given,
      and one or two lines per file. */
  lemma BundleLength(files: seq<string>, contents: map<string, string>, note: bool, removeEmptyLines: bool,
                     author: string, nl: Newline)
    requires AllReadable(files, contents)
    ensures |BundleLines(files, contents, note, removeEmptyLines, author, nl)|
         == (if author != "" then 1 else 0) + |files| * (if note then 2 else 1)
  {
    BlocksLength(files, contents, note, removeEmptyLines, nl);
  }

  /** File `i`'s content sits at block offset `i * Width + Width - 1`, right
      after its note banner when notes are asked for. */
  lemma {:induction false} BlocksAt(files: seq<string>, contents: map<string, string>, note: bool,
                                    removeEmptyLines: bool, nl: Newline, i: nat)
    requires AllReadable(files, contents) && i < |files|
    ensures var b := Blocks(files, contents, note, removeEmptyLines, nl);
            var at := i * Width(note) + Width(note) - 1;
            && at < |b|
            && b[at] == Content(contents[files[i]], removeEmptyLines, nl)
            && (note ==> b[at - 1] == NoteBanner(files[i]))
    decreases |files|
  {
    var n := |files| - 1;
    var init := files[..n];
    BlocksLength(init, contents, note, removeEmptyLines, nl);
    BlocksLength(files, contents, note, removeEmptyLines, nl);
    if i < n {
      assert init[i] == files[i];
      BlocksAt(init, contents, note, removeEmptyLines, nl, i);
    }
  }

  /** The author banner comes first exactly when an author is given, and
      file `i`'s content (verbatim, or stripped when asked) comes at position
      `h + i * w + w - 1`, where `h` is the number of banner lines at the top
      and `w` the number of lines per file, preceded by the path banner when
      notes are asked for. */
  lemma BundleEntries(files: seq<string>, contents: map<string, string>, note: bool, removeEmptyLines: bool,
                      author: string, nl: Newline, i: nat)
    requires AllReadable(files, contents) && i < |files|
    ensures var lines := BundleLines(files, contents, note, removeEmptyLines, author, nl);
            var h := if author != "" then 1 else 0;
            var at := h + i * Width(note) + Width(note) - 1;
            && (author != "" ==> lines[0] == AuthorBanner(author))
            && at < |lines|
            && lines[at] == (if removeEmptyLines then StripEmptyLines(contents[files[i]], nl) else contents[files[i]])
            && (note ==> lines[at - 1] == NoteBanner(files[i]))
  {
    BlocksAt(files, contents, note, removeEmptyLines, nl, i);
  }

  /** One file, no note, no stripping, no author: the bundle is that file's
      text as its only line. */
  lemma SingleFileRoundTrip(path: string, contents: map<string, string>, nl: Newline)
    requires path in contents
    ensures BundleLines([path], contents, false, false, "", nl) == [contents[path]]
  {
    var files := [path];
    assert files[..0] == [] && files[0] == path;
    assert Blocks(files, contents, false, false, nl) == [] + FileBlock(path, contents[path], false, false, nl);
  }

  /** Two C# files, notes, an author: banner, then path banner and content
      for each file in turn; the empty file gives an empty content line. */
  lemma TwoFileScenario(nl: Newline)
    ensures var contents := map["x.cs" := "class X{}", "y.cs" := ""];
            BundleLines(["x.cs", "y.cs"], contents, true, false, "Dana", nl)
              == [AuthorBanner("Dana"), NoteBanner("x.cs"), "class X{}", NoteBanner("y.cs"), ""]
  {
    var contents := map["x.cs" := "class X{}", "y.cs" := ""];
    var files := ["x.cs", "y.cs"];
    var first := files[..1];
    assert first == ["x.cs"] && first[..0] == [];
    assert Blocks(first, contents, true, false, nl) == [NoteBanner("x.cs"), "class X{}"];
    assert Blocks(files, contents, true, false, nl)
        == Blocks(first, contents, true, false, nl) + [NoteBanner("y.cs"), ""];
  }

  /** Every file any pattern lists is taken, and nothing else. */
  lemma {:induction false} MatchesMembers(patterns: seq<string>, listing: string -> seq<string>, f: string)
    ensures f in Matches(patterns, listing) <==> exists p :: p in patterns && f in listing(p)
  {
    if patterns != [] {
      MatchesMembers(patterns[1..], listing, f);
      assert forall p :: p in patterns <==> p == patterns[0] || p in patterns[1..];
    }
  }

  /** Listing two pattern lists one after the other is listing their
      concatenation: no file is dropped or merged, so duplicates stay. */
  lemma {:induction false} MatchesAppend(ps: seq<string>, qs: seq<string>, listing: string -> seq<string>)
    ensures Matches(ps + qs, listing) == Matches(ps, listing) + Matches(qs, listing)
  {
    if ps == [] {
      assert ps + qs == qs;
    } else {
      assert (ps + qs)[1..] == ps[1..] + qs;
      MatchesAppend(ps[1..], qs, listing);
    }
  }
}
