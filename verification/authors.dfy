/** preprocess/clean.py's extract_metadata: the author names listed on lines
    that open with a byline key and a fullwidth colon, deduplicated and
    sorted. */
module Authors {
  import opened Text
  import opened Patterns
  import opened StringOrder

  /** The byline keys, in the order they are searched. */
  const AuthorKeys: seq<string> := ["撰稿人", "投稿人", "信息来源"]

  /** A key followed by the fullwidth colon: what a qualifying line opens with. */
  function SearchKey(key: string): string {
    key + "："
  }

  /** The authors named on one qualifying line: every copy of the search key
      removed, the rest stripped, split at '、', and each piece stripped. */
  function AuthorsOf(line: string, searchKey: string): (authors: seq<string>)
    requires |searchKey| > 0
    ensures |authors| >= 1
  {
    StripEach(SplitChar(Strip(Delete(Literal(searchKey), line), Spaces), '、'))
  }

  /** A piece without '、', stripped, is stripped for good and still
      without '、'. */
  lemma {:induction false} StrippedPieceClean(piece: string)
    requires '、' !in piece
    ensures Strip(Strip(piece, Spaces), Spaces) == Strip(piece, Spaces) && '、' !in Strip(piece, Spaces)
  {
    StripIdempotent(piece, Spaces);
    StripSlice(piece, Spaces);
    var a := SpanIn(piece, Spaces);
    var r := Strip(piece, Spaces);
    assert r == piece[a..a + |r|];
    forall k | 0 <= k < |r| ensures r[k] != '、' {
      assert r[k] == piece[a + k];
    }
  }

  /** Every author named on a line is stripped and holds no '、'. */
  lemma {:induction false} AuthorsOfClean(line: string, searchKey: string)
    requires |searchKey| > 0
    ensures forall a :: a in AuthorsOf(line, searchKey) ==> Strip(a, Spaces) == a && '、' !in a
  {
    var pieces := SplitChar(Strip(Delete(Literal(searchKey), line), Spaces), '、');
    SplitCharPieces(Strip(Delete(Literal(searchKey), line), Spaces), '、');
    var authors := StripEach(pieces);
    StripEachAt(pieces);
    forall k | 0 <= k < |authors|
      ensures Strip(authors[k], Spaces) == authors[k] && '、' !in authors[k]
    {
      StrippedPieceClean(pieces[k]);
    }
  }

  /** What one line contributes for one key: its authors when it opens with
      the key's search key, nothing otherwise. */
  function Contribution(key: string, line: string): (authors: seq<string>)
    ensures authors == [] <==> !StartsWith(line, SearchKey(key))
  {
    if StartsWith(line, SearchKey(key)) then AuthorsOf(line, SearchKey(key)) else []
  }

  /** What `lines` contribute for `key`, line by line: the list the inner
      loop appends to. */
  function GatherLines(lines: seq<string>, key: string, of: (string, string) -> seq<string>): seq<string> {
    if lines == [] then [] else GatherLines(lines[..|lines| - 1], key, of) + of(key, lines[|lines| - 1])
  }

  /** What `lines` contribute for each of `keys` in turn: the list the outer
      loop has built when `keys` have been searched. */
  function GatherKeys(keys: seq<string>, lines: seq<string>, of: (string, string) -> seq<string>): seq<string> {
    if keys == [] then [] else GatherKeys(keys[..|keys| - 1], lines, of) + GatherLines(lines, keys[|keys| - 1], of)
  }

  /** all_authors once every key has been searched. */
  function AllAuthors(content: string): seq<string> {
    GatherKeys(AuthorKeys, SplitLines(content), Contribution)
  }

  /** Line `j` opens with the search key of key `k`. */
  predicate AuthorLine(lines: seq<string>, j: int, k: int) {
    0 <= j < |lines| && 0 <= k < |AuthorKeys| && StartsWith(lines[j], SearchKey(AuthorKeys[k]))
  }

  /** Some line of the text qualifies. */
  ghost predicate HasAuthorLine(content: string) {
    var lines := SplitLines(content);
    exists j, k :: AuthorLine(lines, j, k)
  }

  /** `a` is one of the authors some line contributes for some key. */
  ghost predicate IsAuthor(content: string, a: string) {
    var lines := SplitLines(content);
    exists j, k :: 0 <= j < |lines| && 0 <= k < |AuthorKeys| && a in Contribution(AuthorKeys[k], lines[j])
  }

  /** A gathered item comes from the list of some line. */
  lemma {:induction false} GatherLinesSound(lines: seq<string>, key: string, of: (string, string) -> seq<string>, a: string)
    requires a in GatherLines(lines, key, of)
    ensures exists j :: 0 <= j < |lines| && a in of(key, lines[j])
  {
    var n := |lines| - 1;
    if a !in of(key, lines[n]) {
      GatherLinesSound(lines[..n], key, of, a);
      var j :| 0 <= j < n && a in of(key, lines[..n][j]);
      assert lines[..n][j] == lines[j];
    }
  }

  /** Everything in the list of a line is gathered. */
  lemma {:induction false} GatherLinesComplete(lines: seq<string>, key: string, of: (string, string) -> seq<string>, a: string, j: nat)
    requires j < |lines| && a in of(key, lines[j])
    ensures a in GatherLines(lines, key, of)
  {
    var n := |lines| - 1;
    if j < n {
      assert lines[..n][j] == lines[j];
      GatherLinesComplete(lines[..n], key, of, a, j);
    }
  }

  /** A gathered item comes from the list of some line for some key. */
  lemma {:induction false} GatherKeysSound(keys: seq<string>, lines: seq<string>, of: (string, string) -> seq<string>, a: string)
    requires a in GatherKeys(keys, lines, of)
    ensures exists j, k :: 0 <= j < |lines| && 0 <= k < |keys| && a in of(keys[k], lines[j])
  {
    var n := |keys| - 1;
    if a in GatherLines(lines, keys[n], of) {
      GatherLinesSound(lines, keys[n], of, a);
      var j :| 0 <= j < |lines| && a in of(keys[n], lines[j]);
      assert 0 <= j < |lines| && 0 <= n < |keys| && a in of(keys[n], lines[j]);
    } else {
      var init := keys[..n];
      GatherKeysSound(init, lines, of, a);
      var j, k :| 0 <= j < |lines| && 0 <= k < |init| && a in of(init[k], lines[j]);
      assert init[k] == keys[k];
    }
  }

  /** Everything in the list of a line for a key is gathered. */
  lemma {:induction false} GatherKeysComplete(keys: seq<string>, lines: seq<string>, of: (string, string) -> seq<string>, a: string, j: nat, k: nat)
    requires j < |lines| && k < |keys| && a in of(keys[k], lines[j])
    ensures a in GatherKeys(keys, lines, of)
  {
    var n := |keys| - 1;
    if k < n {
      assert keys[..n][k] == keys[k];
      GatherKeysComplete(keys[..n], lines, of, a, j, k);
    } else {
      GatherLinesComplete(lines, keys[n], of, a, j);
    }
  }

  /** The authors gathered from a text are exactly its authors, and there
      are some exactly when a line qualifies. */
  lemma {:induction false} AllAuthorsMembers(content: string)
    ensures forall a :: a in AllAuthors(content) <==> IsAuthor(content, a)
    ensures AllAuthors(content) == [] <==> !HasAuthorLine(content)
  {
    var lines := SplitLines(content);
    var of := Contribution;
    forall a | IsAuthor(content, a)
      ensures a in AllAuthors(content)
    {
      var j, k :| 0 <= j < |lines| && 0 <= k < |AuthorKeys| && a in Contribution(AuthorKeys[k], lines[j]);
      assert a in of(AuthorKeys[k], lines[j]);
      GatherKeysComplete(AuthorKeys, lines, of, a, j, k);
    }
    forall a | a in AllAuthors(content)
      ensures IsAuthor(content, a)
    {
      GatherKeysSound(AuthorKeys, lines, of, a);
      var j, k :| 0 <= j < |lines| && 0 <= k < |AuthorKeys| && a in of(AuthorKeys[k], lines[j]);
      assert a in Contribution(AuthorKeys[k], lines[j]);
    }
    if AllAuthors(content) != [] {
      var a := AllAuthors(content)[0];
      assert IsAuthor(content, a);
      var j, k :| 0 <= j < |lines| && 0 <= k < |AuthorKeys| && a in Contribution(AuthorKeys[k], lines[j]);
      assert AuthorLine(lines, j, k);
    }
    if HasAuthorLine(content) {
      var j, k :| AuthorLine(lines, j, k);
      var c := Contribution(AuthorKeys[k], lines[j]);
      assert c[0] in c;
      assert IsAuthor(content, c[0]);
    }
  }

  /** The inner loop of the extraction: the authors of the lines that open
      with `searchKey`, in line order. */
  method CollectForKey(lines: seq<string>, key: string, searchKey: string) returns (authors: seq<string>)
    requires searchKey == SearchKey(key)
    ensures authors == GatherLines(lines, key, Contribution)
  {
    authors := [];
    for j := 0 to |lines|
      invariant authors == GatherLines(lines[..j], key, Contribution)
    {
      assert lines[..j + 1][..j] == lines[..j];
      if StartsWith(lines[j], searchKey) {
        var lineAuthors := AuthorsOf(lines[j], searchKey);
        authors := authors + lineAuthors;
      }
    }
    assert lines[..|lines|] == lines;
  }

  /** The authors of a text, gathered key by key and line by line, then
      deduplicated and sorted into the `authors` entry, which is present only
      when something was gathered. */
  method ExtractMetadata(content: string) returns (metadata: map<string, seq<string>>)
    ensures metadata.Keys <= {"authors"}
    ensures "authors" in metadata <==> HasAuthorLine(content)
    ensures "authors" in metadata ==> StrictlyAscending(metadata["authors"])
    ensures "authors" in metadata ==> forall a :: a in metadata["authors"] <==> IsAuthor(content, a)
  {
    metadata := map[];
    var allAuthors: seq<string> := [];
    var authorKeys := AuthorKeys;
    for i := 0 to |authorKeys|
      invariant allAuthors == GatherKeys(authorKeys[..i], SplitLines(content), Contribution)
    {
      assert authorKeys[..i + 1][..i] == authorKeys[..i] && authorKeys[..i + 1][i] == authorKeys[i];
      var searchKey := authorKeys[i] + "：";
      var lines := SplitLines(content);
      var authors := CollectForKey(lines, authorKeys[i], searchKey);
      allAuthors := allAuthors + authors;
    }
    assert authorKeys[..|authorKeys|] == AuthorKeys;
    assert allAuthors == AllAuthors(content);
    AllAuthorsMembers(content);
    if allAuthors != [] {
      metadata := metadata["authors" := SortedSet(allAuthors)];
    }
  }

  /** Every author of a text is stripped and holds no '、'. */
  lemma {:induction false} AuthorsAreClean(content: string, a: string)
    requires IsAuthor(content, a)
    ensures Strip(a, Spaces) == a && '、' !in a
  {
    var lines := SplitLines(content);
    var j, k :| 0 <= j < |lines| && 0 <= k < |AuthorKeys| && a in Contribution(AuthorKeys[k], lines[j]);
    AuthorsOfClean(lines[j], SearchKey(AuthorKeys[k]));
  }

  /** A line holding only a key and its colon names one author, the empty
      string. */
  lemma {:induction false} KeyAloneGivesEmptyAuthor(key: string)
    ensures AuthorsOf(SearchKey(key), SearchKey(key)) == [""]
  {
    var t := SearchKey(key);
    assert MatchLength(Literal(t), t) == Some(|t|);
    DeleteTrailingMatch(Literal(t), [], t);
    assert [] + t == t;
    assert Strip([], Spaces) == [];
    assert SplitChar([], '、') == [[]];
  }

  /** A line that opens with whitespace does not qualify, whatever follows. */
  lemma {:induction false} IndentedLineIgnored(line: string, k: int)
    requires line != [] && IsSpace(line[0]) && 0 <= k < |AuthorKeys|
    ensures !StartsWith(line, SearchKey(AuthorKeys[k]))
  {
    var t := SearchKey(AuthorKeys[k]);
    assert t[0] == AuthorKeys[k][0];
    assert AuthorKeys[k][0] in {'撰', '投', '信'};
  }

  /** A byline written with an ASCII colon does not qualify for its key. */
  lemma {:induction false} AsciiColonIgnored(line: string, k: int)
    requires 0 <= k < |AuthorKeys| && StartsWith(line, AuthorKeys[k] + ":")
    ensures !StartsWith(line, SearchKey(AuthorKeys[k]))
  {
    var key := AuthorKeys[k];
    assert line[|key|] == ':';
  }
}
