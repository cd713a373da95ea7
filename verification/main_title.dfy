/** preprocess/main_title.py: give every Markdown file an H1 title taken from
    its file name, unless its content already opens with one. */
module MainTitle {
  import opened Text

  /** Index of the last `c` in `s`, or -1 (Python's str.rfind). */
  function RFind(s: string, c: char): (r: int)
    ensures -1 <= r < |s|
    ensures 0 <= r ==> s[r] == c
    ensures forall k :: r < k < |s| ==> s[k] != c
  {
    if s == [] then -1
    else if s[|s| - 1] == c then |s| - 1
    else RFind(s[..|s| - 1], c)
  }

  /** Cutting `s` after its last `c` keeps that last `c`. */
  lemma {:induction false} RFindPrefix(s: string, c: char, n: nat)
    requires RFind(s, c) < n <= |s|
    ensures RFind(s[..n], c) == RFind(s, c)
    decreases |s| - n
  {
    if n < |s| {
      var t := s[..|s| - 1];
      assert RFind(s, c) == RFind(t, c);
      RFindPrefix(t, c, n);
      assert t[..n] == s[..n];
    } else {
      assert s[..n] == s;
    }
  }

  /** os.path.splitext(filename)[0] on POSIX: the name without its final
      extension. The extension starts at the last '.' after the last '/',
      and only if some character other than '.' precedes that dot within
      the base name (so ".bashrc" has no extension). */
  function Stem(filename: string): (stem: string)
    ensures |stem| <= |filename|
  {
    var sep := RFind(filename, '/');
    var dot := RFind(filename, '.');
    if sep < dot && !AllIn(filename[sep + 1..dot], Among({'.'})) then filename[..dot] else filename
  }

  /** The stem is a prefix of the name. */
  lemma {:induction false} StemIsPrefix(filename: string)
    ensures StartsWith(filename, Stem(filename))
  {
    var dot := RFind(filename, '.');
    if Stem(filename) != filename {
      assert Stem(filename) == filename[..dot];
    } else {
      assert filename[..|filename|] == filename;
    }
  }

  /** What the stem drops is nothing or one extension: a '.' followed by
      neither '.' nor '/'. */
  lemma {:induction false} StemDropsExtension(filename: string)
    ensures var ext := filename[|Stem(filename)|..];
      ext == [] || (ext[0] == '.' && forall k :: 0 < k < |ext| ==> ext[k] != '.' && ext[k] != '/')
  {
    var sep := RFind(filename, '/');
    var dot := RFind(filename, '.');
    if Stem(filename) != filename {
      assert |Stem(filename)| == dot;
      var ext := filename[dot..];
      forall k | 0 < k < |ext| ensures ext[k] != '.' && ext[k] != '/' {
        assert ext[k] == filename[dot + k];
      }
    }
  }

  /** A stem that dropped an extension still has a base name that is not all dots. */
  lemma {:induction false} StemKeepsBaseName(filename: string)
    requires Stem(filename) != filename
    ensures !AllIn(Stem(filename)[RFind(Stem(filename), '/') + 1..], Among({'.'}))
  {
    var sep := RFind(filename, '/');
    var dot := RFind(filename, '.');
    var stem := filename[..dot];
    assert Stem(filename) == stem;
    RFindPrefix(filename, '/', dot);
    assert stem[sep + 1..] == filename[sep + 1..dot];
  }

  /** In a name ending in ".md" the last '.' is that of ".md", and the last
      '/' lies before it. */
  lemma {:induction false} MarkdownDot(filename: string)
    requires EndsWith(filename, ".md")
    ensures RFind(filename, '.') == |filename| - 3
    ensures RFind(filename, '/') == RFind(filename[..|filename| - 3], '/') < |filename| - 3
  {
    var n := |filename|;
    var ext := filename[n - 3..];
    assert ext == ".md";
    assert filename[n - 3] == ext[0] == '.';
    assert filename[n - 2] == ext[1] == 'm';
    assert filename[n - 1] == ext[2] == 'd';
    RFindPrefix(filename, '/', n - 3);
  }

  /** A Markdown file name with a real base name loses exactly ".md". */
  lemma {:induction false} MarkdownStem(filename: string)
    requires EndsWith(filename, ".md")
    requires var base := filename[..|filename| - 3];
      !AllIn(base[RFind(base, '/') + 1..], Among({'.'}))
    ensures Stem(filename) == filename[..|filename| - 3]
  {
    var n := |filename|;
    var base := filename[..n - 3];
    MarkdownDot(filename);
    var sep := RFind(base, '/');
    assert filename[sep + 1..n - 3] == base[sep + 1..];
  }

  /** The directory loop only handles names ending in ".md". */
  predicate IsMarkdownName(filename: string) {
    EndsWith(filename, ".md")
  }

  /** The content already opens with an H1 line once surrounding whitespace is ignored. */
  predicate Titled(content: string) {
    StartsWith(Strip(content, Spaces), "# ")
  }

  /** The new content written for one file. */
  function AddTitle(filename: string, content: string): (r: string)
    ensures EndsWith(r, content)
    ensures r == content <==> Titled(content)
    ensures !Titled(content) ==> |r| == |Stem(filename)| + 4 + |content|
    ensures !Titled(content) ==> StartsWith(r, "# " + Stem(filename) + "\n\n")
  {
    if Titled(content) then content
    else
      var r := "# " + Stem(filename) + "\n\n" + content;
      assert r[|r| - |content|..] == content;
      assert r[..|Stem(filename)| + 4] == "# " + Stem(filename) + "\n\n";
      r
  }

  /** A title line followed by text with something other than whitespace
      in it makes the content titled. */
  lemma {:induction false} TitleLineTitles(title: string, content: string)
    requires !AllSpace(title) || !AllSpace(content)
    ensures Titled("# " + title + "\n\n" + content)
  {
    var r := "# " + title + "\n\n" + content;
    var m: nat;
    if !AllSpace(title) {
      var j :| 0 <= j < |title| && !IsSpace(title[j]);
      m := 2 + j;
      assert r[m] == title[j];
    } else {
      var j :| 0 <= j < |content| && !IsSpace(content[j]);
      m := |title| + 4 + j;
      assert r[m] == content[j];
    }
    assert r[0] == '#' && r[1] == ' ';
    StripKeepsFirst(r, Spaces);
    var n := KeepRight(r, Spaces);
    KeepRightRun(r, Spaces);
    assert m < n;
    assert Strip(r, Spaces)[..2] == r[..2] == "# ";
  }

  /** Running the step on its own output changes nothing more, provided the
      title or the content has a visible character (see BlankTitleTwice). */
  lemma {:induction false} AddTitleIdempotent(filename: string, content: string)
    requires !AllSpace(Stem(filename)) || !AllSpace(content)
    ensures AddTitle(filename, AddTitle(filename, content)) == AddTitle(filename, content)
  {
    if !Titled(content) {
      TitleLineTitles(Stem(filename), content);
    }
  }

  /** A blank stem does occur: the name " .md" has the stem " ". */
  lemma {:induction false} SpaceNameStem()
    ensures Stem(" .md") == " " && AllSpace(Stem(" .md"))
  {
    var s := " .md";
    assert s[0] == ' ' && s[1] == '.' && s[2] == 'm' && s[3] == 'd';
    assert RFind(s, '/') == -1;
    assert RFind(s, '.') == 1;
    assert s[0..1] == " ";
    assert !AllIn(" ", Among({'.'}));
    assert IsSpace(" "[0]);
  }

  /** Without a title the result is the title line, a blank line, then the content. */
  lemma {:induction false} UntitledForm(filename: string, content: string)
    requires !Titled(content)
    ensures AddTitle(filename, content) == "# " + Stem(filename) + "\n\n" + content
  {
  }

  /** A title line around a blank title, before blank content, strips down to "#". */
  lemma {:induction false} BlankTitleLine(title: string, content: string)
    requires AllSpace(title) && AllSpace(content)
    ensures Strip("# " + title + "\n\n" + content, Spaces) == "#"
  {
    var r := "# " + title + "\n\n" + content;
    forall k | 1 <= k < |r| ensures In(r[k], Spaces) {
      if k < 2 {
      } else if k < 2 + |title| {
        assert r[k] == title[k - 2];
      } else if k < 4 + |title| {
      } else {
        assert r[k] == content[k - 4 - |title|];
      }
    }
    StripKeepsFirst(r, Spaces);
    KeepRightRun(r, Spaces);
    assert KeepRight(r, Spaces) == 1;
  }

  /** Without a visible character the title line strips down to "#", so a
      second run adds a second title: the precondition above is needed. */
  lemma {:induction false} BlankTitleTwice(filename: string, content: string)
    requires AllSpace(Stem(filename)) && AllSpace(content)
    ensures AddTitle(filename, AddTitle(filename, content)) != AddTitle(filename, content)
  {
    StripEnds(content, Spaces);
    UntitledForm(filename, content);
    var r := "# " + Stem(filename) + "\n\n" + content;
    BlankTitleLine(Stem(filename), content);
    assert !Titled(r);
    UntitledForm(filename, r);
  }

  /** One file after the step: its name and its new content. */
  function Retitled(file: (string, string)): (string, string) {
    (file.0, AddTitle(file.0, file.1))
  }

  /** The files of one directory listing that the loop writes out, with
      their new content; names not ending in ".md" are skipped. */
  function TitleFiles(files: seq<(string, string)>): (out: seq<(string, string)>)
    ensures |out| <= |files|
    ensures forall k :: 0 <= k < |out| ==> IsMarkdownName(out[k].0)
  {
    if files == [] then []
    else
      var rest := TitleFiles(files[1..]);
      if IsMarkdownName(files[0].0) then
        var out := [Retitled(files[0])] + rest;
        assert forall k :: 1 <= k < |out| ==> out[k] == rest[k - 1];
        out
      else rest
  }

  /** Every Markdown file of the listing is written with its new content,
      and nothing else is written. */
  lemma {:induction false} TitleFilesExactly(files: seq<(string, string)>)
    ensures forall f :: f in files && IsMarkdownName(f.0) ==> Retitled(f) in TitleFiles(files)
    ensures forall g :: g in TitleFiles(files) ==>
      exists f :: f in files && IsMarkdownName(f.0) && g == Retitled(f)
  {
    if files != [] {
      var rest := files[1..];
      TitleFilesExactly(rest);
      assert files == [files[0]] + rest;
      forall f | f in files && IsMarkdownName(f.0) ensures Retitled(f) in TitleFiles(files) {
        if f != files[0] {
          assert f in rest;
        }
      }
      forall g | g in TitleFiles(files)
        ensures exists f :: f in files && IsMarkdownName(f.0) && g == Retitled(f)
      {
        if g !in TitleFiles(rest) {
          assert g == Retitled(files[0]);
        }
      }
    }
  }
}
