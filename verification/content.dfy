/** Content selection (bot.py:41-55): a paragraph of the text file or an image of
    the image directory, each chosen by `random.choice`. The file's contents, the
    directory listing and the random draw are parameters. */
module Content {
  import opened Wrappers
  import opened PyStr

  /** Why `get_random_text` raises instead of returning: the file cannot be opened
      or decoded (`open` or `read` raises), or `random.choice` is handed an empty list. */
  datatype TextError = Unreadable | NoParagraph

  /** The separator between paragraphs of the text file. */
  const ParagraphSeparator: string := "\n\n"

  /** Where the images live; `os.path.join` of it and an entry gives the image path. */
  const ImageDir: string := "content/images"

  /** The tuple handed to `endswith`, in the source's order. */
  const ImageExtensions: seq<string> := [".jpg", ".jpeg", ".png", ".gif", ".webp"]

  /** `random.choice(cands)` for the draw `pick`. */
  function Choose<T>(cands: seq<T>, pick: nat): (x: T)
    requires |cands| > 0
    ensures x in cands
  {
    cands[pick % |cands|]
  }

  /** A draw below the number of candidates picks the candidate at that index. */
  lemma ChooseAt<T>(cands: seq<T>, pick: nat)
    requires pick < |cands|
    ensures Choose(cands, pick) == cands[pick]
  {
  }

  /** Every candidate can be drawn. */
  lemma ChooseCovers<T>(cands: seq<T>, x: T)
    requires x in cands
    ensures exists pick: nat :: Choose(cands, pick) == x
  {
    var k :| 0 <= k < |cands| && cands[k] == x;
    ChooseAt(cands, k);
  }

  // ---------------------------------------------------------------- paragraphs

  /** `[p.strip() for p in chunks if p.strip()]`. */
  function NonBlank(chunks: seq<string>): (r: seq<string>)
    ensures |r| <= |chunks|
  {
    if |chunks| == 0 then []
    else
      var p := Strip(chunks[0]);
      (if p != [] then [p] else []) + NonBlank(chunks[1..])
  }

  /** The paragraphs `get_random_text` chooses from, given the text as `read()`
      returns it: each is non-empty and has no whitespace at either end. */
  function Paragraphs(text: string): (r: seq<string>)
    ensures forall k :: 0 <= k < |r| ==> r[k] != [] && !IsSpace(r[k][0]) && !IsSpace(r[k][|r[k]| - 1])
  {
    var chunks := Split(text, ParagraphSeparator);
    var r := NonBlank(chunks);
    assert forall k :: 0 <= k < |r| ==> r[k] != [] && !IsSpace(r[k][0]) && !IsSpace(r[k][|r[k]| - 1]) by {
      forall k | 0 <= k < |r| ensures r[k] != [] && !IsSpace(r[k][0]) && !IsSpace(r[k][|r[k]| - 1]) {
        NonBlankTrimmed(chunks, r[k]);
      }
    }
    r
  }

  /** Every candidate is non-empty and neither starts nor ends with whitespace. */
  lemma NonBlankTrimmed(chunks: seq<string>, x: string)
    requires x in NonBlank(chunks)
    ensures x != [] && !IsSpace(x[0]) && !IsSpace(x[|x| - 1])
  {
    NonBlankMembers(chunks, x);
    var c :| c in chunks && Strip(c) == x;
    StripEnds(c);
  }

  /** A candidate is exactly the non-empty `strip()` of some chunk. */
  lemma {:induction false} NonBlankMembers(chunks: seq<string>, x: string)
    ensures x in NonBlank(chunks) <==> x != [] && exists c :: c in chunks && Strip(c) == x
  {
    if |chunks| > 0 {
      NonBlankMembers(chunks[1..], x);
      assert forall c :: c in chunks <==> c == chunks[0] || c in chunks[1..];
    }
  }

  /** Filtering keeps the order of the chunks: it distributes over concatenation. */
  lemma {:induction false} NonBlankAppend(a: seq<string>, b: seq<string>)
    ensures NonBlank(a + b) == NonBlank(a) + NonBlank(b)
  {
    if |a| > 0 {
      NonBlankAppend(a[1..], b);
      var head := if Strip(a[0]) != [] then [Strip(a[0])] else [];
      assert (a + b)[0] == a[0];
      assert (a + b)[1..] == a[1..] + b;
      assert NonBlank(a + b) == head + NonBlank(a[1..] + b);
      assert NonBlank(a) == head + NonBlank(a[1..]);
    } else {
      assert a + b == b;
    }
  }

  /** A chunk is dropped exactly when it is whitespace only; otherwise its `strip()`
      takes its place between the candidates of the chunks around it. */
  lemma NonBlankAt(a: seq<string>, c: string, b: seq<string>)
    ensures NonBlank(a + [c] + b)
         == NonBlank(a) + (if AllSpace(c) then [] else [Strip(c)]) + NonBlank(b)
  {
    NonBlankAppend(a + [c], b);
    NonBlankAppend(a, [c]);
    StripEmpty(c);
    assert [c][1..] == [];
  }

  /** There is no paragraph exactly when the text is whitespace only. */
  lemma ParagraphsEmpty(text: string)
    ensures Paragraphs(text) == [] <==> AllSpace(text)
  {
    var chunks := Split(text, ParagraphSeparator);
    SplitJoin(text, ParagraphSeparator);
    AllSpaceJoin(chunks, ParagraphSeparator);
    if Paragraphs(text) == [] {
      forall k | 0 <= k < |chunks| ensures AllSpace(chunks[k]) {
        NonBlankMembers(chunks, Strip(chunks[k]));
        StripEmpty(chunks[k]);
      }
    } else {
      var x := Paragraphs(text)[0];
      NonBlankMembers(chunks, x);
      var c :| c in chunks && Strip(c) == x;
      StripEmpty(c);
    }
  }

  /** No paragraph contains the separator: a blank line always ends a paragraph. */
  lemma ParagraphsFree(text: string, x: string)
    requires x in Paragraphs(text)
    ensures Free(x, ParagraphSeparator)
  {
    var chunks := Split(text, ParagraphSeparator);
    NonBlankMembers(chunks, x);
    var c :| c in chunks && Strip(c) == x;
    var k :| 0 <= k < |chunks| && chunks[k] == c;
    SplitPieceFree(text, ParagraphSeparator, k);
    StripFree(c, ParagraphSeparator);
  }

  /** The paragraphs of the sample file "A", blank line, "B", two newlines: the
      trailing newline chunk is whitespace only and is dropped. */
  lemma ParagraphsExample()
    ensures Paragraphs("A\n\nB\n\n\n") == ["A", "B"]
  {
    SplitExample();
    NonBlankExample();
  }

  lemma NonBlankExample()
    ensures NonBlank(["A", "B", "\n"]) == ["A", "B"]
  {
    var l := ["A", "B", "\n"];
    assert l[1..] == ["B", "\n"] && l[1..][1..] == ["\n"];
    BlankChunk();
    assert NonBlank(["B", "\n"]) == ["B"] by { StripTrimmed("B"); }
    StripTrimmed("A");
  }

  lemma BlankChunk()
    ensures NonBlank(["\n"]) == []
  {
    assert ["\n"][1..] == [];
    assert AllSpace("\n");
    StripEmpty("\n");
  }

  lemma SplitExample()
    ensures Split("A\n\nB\n\n\n", ParagraphSeparator) == ["A", "B", "\n"]
  {
    var s := "A\n\nB\n\n\n";
    var sep := ParagraphSeparator;
    assert s[1..3] == sep && s[4..6] == sep;
    assert s[0..2][0] != sep[0] && s[3..5][0] != sep[0];
    FindFromFirst(s, sep, 0, 1);
    FindFromFirst(s, sep, 3, 4);
    SplitFromStep(s, sep, 0, 1);
    SplitFromStep(s, sep, 3, 4);
    assert FindFrom(s, sep, 6) == None;
    assert s[0..1] == "A" && s[3..4] == "B" && s[6..] == "\n";
  }

  /** `get_random_text()` on the file's decoded contents as stored (`None`: opening
      or decoding the file raises) and the draw `pick`. Text mode turns every line
      ending into a newline before `split` sees it. */
  function RandomText(file: Option<string>, pick: nat): (r: Result<string, TextError>)
    ensures file.None? ==> r == Failure(Unreadable)
    ensures file.Some? && AllSpace(file.value) ==> r == Failure(NoParagraph)
    ensures file.Some? && !AllSpace(file.value) ==> r.Success?
    ensures r.Success? ==> r.value in Paragraphs(UniversalNewlines(file.value))
    ensures r.Success? ==> r.value != [] && !IsSpace(r.value[0]) && !IsSpace(r.value[|r.value| - 1])
  {
    match file
    case None => Failure(Unreadable)
    case Some(raw) =>
      var text := UniversalNewlines(raw);
      UniversalNewlinesSpace(raw);
      ParagraphsEmpty(text);
      var cands := Paragraphs(text);
      if |cands| == 0 then Failure(NoParagraph)
      else
        Success(Choose(cands, pick))
  }

  /** Every paragraph of a readable file is the result for some draw. */
  lemma RandomTextCovers(raw: string, x: string)
    requires x in Paragraphs(UniversalNewlines(raw))
    ensures exists pick: nat :: RandomText(Some(raw), pick) == Success(x)
  {
    var cands := Paragraphs(UniversalNewlines(raw));
    var k :| 0 <= k < |cands| && cands[k] == x;
    ChooseAt(cands, k);
    assert RandomText(Some(raw), k) == Success(x);
  }

  // ---------------------------------------------------------------- images

  /** The extension test of bot.py:52, case-insensitive: a kept name is at least as
      long as the shortest extension. */
  predicate IsImageName(name: string)
    ensures IsImageName(name) ==> |name| >= 4
  {
    EndsWithAny(Lower(name), ImageExtensions)
  }

  /** `[f for f in listing if IsImageName(f)]`. */
  function ImageNames(listing: seq<string>): (r: seq<string>)
    ensures |r| <= |listing|
    ensures forall k :: 0 <= k < |r| ==> IsImageName(r[k])
  {
    if |listing| == 0 then []
    else (if IsImageName(listing[0]) then [listing[0]] else []) + ImageNames(listing[1..])
  }

  /** A name is an image name exactly when its lower-cased form is some string
      followed by one of the five extensions. */
  lemma IsImageNameIff(name: string)
    ensures IsImageName(name)
        <==> exists k, p :: 0 <= k < |ImageExtensions| && Lower(name) == p + ImageExtensions[k]
  {
    EndsWithAnyIff(Lower(name), ImageExtensions);
    forall k | 0 <= k < |ImageExtensions| {
      EndsWithIff(Lower(name), ImageExtensions[k]);
    }
  }

  /** Upper-casing a name does not change whether it is kept. */
  lemma IsImageNameIgnoresCase(name: string)
    ensures IsImageName(Upper(name)) <==> IsImageName(name)
  {
    LowerUpper(name);
  }

  /** The filter keeps exactly the image names of the listing. */
  lemma {:induction false} ImageNamesMembers(listing: seq<string>, x: string)
    ensures x in ImageNames(listing) <==> x in listing && IsImageName(x)
  {
    if |listing| > 0 {
      ImageNamesMembers(listing[1..], x);
      assert forall c :: c in listing <==> c == listing[0] || c in listing[1..];
    }
  }

  /** The filter keeps the listing's order: it distributes over concatenation. */
  lemma {:induction false} ImageNamesAppend(a: seq<string>, b: seq<string>)
    ensures ImageNames(a + b) == ImageNames(a) + ImageNames(b)
  {
    if |a| > 0 {
      ImageNamesAppend(a[1..], b);
      assert (a + b)[1..] == a[1..] + b;
    } else {
      assert a + b == b;
    }
  }

  /** The sample listing: `a.JPG` and `c.webp` are kept, `b.txt` is not. */
  lemma ImageNamesExample()
    ensures ImageNames(["a.JPG", "b.txt", "c.webp"]) == ["a.JPG", "c.webp"]
  {
    var l := ["a.JPG", "b.txt", "c.webp"];
    ImageNameA();
    ImageNameB();
    ImageNameC();
    assert l[1..] == ["b.txt", "c.webp"];
    assert l[1..][1..] == ["c.webp"];
    assert ImageNames(["c.webp"]) == ["c.webp"] by {
      assert ["c.webp"][1..] == [];
    }
    assert ImageNames(["b.txt", "c.webp"]) == ["c.webp"];
  }

  lemma ImageNameA()
    ensures IsImageName("a.JPG")
  {
    assert Lower("a.JPG") == "a.jpg";
    assert EndsWith("a.jpg", ".jpg");
  }

  lemma ImageNameB()
    ensures !IsImageName("b.txt")
  {
    var e := ImageExtensions;
    assert Lower("b.txt") == "b.txt";
    assert !EndsWith("b.txt", e[0]) && !EndsWith("b.txt", e[1]) && !EndsWith("b.txt", e[2])
      && !EndsWith("b.txt", e[3]) && !EndsWith("b.txt", e[4]);
    EndsWithAnyIff("b.txt", e);
  }

  lemma ImageNameC()
    ensures IsImageName("c.webp")
  {
    assert Lower("c.webp") == "c.webp";
    assert EndsWith("c.webp", ImageExtensions[4]);
    EndsWithAnyIff("c.webp", ImageExtensions);
  }

  /** `os.path.join(dir, name)` for a relative `name` and a `dir` without a trailing
      slash: `os.path.basename` gives back a name that has no slash. */
  function JoinPath(dir: string, name: string): (r: string)
    ensures '/' !in name ==> BaseName(r) == name
  {
    var r := dir + "/" + name;
    assert r[|dir|] == '/';
    assert forall i :: |dir| < i < |r| ==> r[i] == name[i - |dir| - 1];
    r
  }

  /** `os.path.basename(path)`: what follows the last slash, or all of `path`. */
  function BaseName(path: string): (r: string)
    ensures |r| <= |path| && r == path[|path| - |r|..] && '/' !in r
    ensures |r| < |path| ==> path[|path| - |r| - 1] == '/'
  {
    path[AfterLastSlash(path, |path|)..]
  }

  /** The index just after the last slash of `path[..j]`, or 0 when there is none. */
  function AfterLastSlash(path: string, j: nat): (k: nat)
    requires j <= |path|
    ensures k <= j && (k == 0 || path[k - 1] == '/')
    ensures forall i :: k <= i < j ==> path[i] != '/'
  {
    if j == 0 || path[j - 1] == '/' then j else AfterLastSlash(path, j - 1)
  }

  /** `get_random_image()` on the directory listing (`None`: no directory) and the
      draw `pick`. */
  function RandomImage(listing: Option<seq<string>>, pick: nat): (r: Option<string>)
    ensures r.None? <==> listing.None? || forall f :: f in listing.value ==> !IsImageName(f)
    ensures r.Some? ==> exists f :: f in listing.value && IsImageName(f) && r.value == JoinPath(ImageDir, f)
  {
    match listing
    case None => None
    case Some(names) =>
      var images := ImageNames(names);
      if |images| == 0 then
        assert forall f :: f in names ==> !IsImageName(f) by {
          forall f | f in names ensures !IsImageName(f) { ImageNamesMembers(names, f); }
        }
        None
      else
        var f := Choose(images, pick);
        ImageNamesMembers(names, f);
        Some(JoinPath(ImageDir, f))
  }
}
