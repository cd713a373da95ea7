/** preprocess.py's clean_content: three deletions in a fixed order, the
    Changning link literal, then cover-image links, then ASCII-colon bylines. */
module LightCleaner {
  import opened Text
  import opened Patterns

  /** The literal removed first (a plain str.replace, no escapes). */
  const ChangningLink: string := "[长宁房管](javascript:void(0);)"

  /** The three deletions, in the order the source applies them. */
  function CleanContent(text: string): (r: string)
    ensures IsSubseq(r, text)
    ensures |r| <= |text|
  {
    var a := Delete(Literal(ChangningLink), text);
    var b := Delete(CoverImage, a);
    var c := Delete(AsciiByline, b);
    SubseqTrans(b, a, text);
    SubseqTrans(c, b, text);
    SubseqMembers(c, text);
    c
  }

  /** None of the three patterns matches anywhere in `text`. */
  predicate NothingToDelete(text: string) {
    forall i :: 0 <= i < |text| ==>
      MatchLength(Literal(ChangningLink), text[i..]).None? &&
      MatchLength(CoverImage, text[i..]).None? &&
      MatchLength(AsciiByline, text[i..]).None?
  }

  /** Text holding none of the three patterns is returned unchanged. */
  lemma {:induction false} NothingToDeleteUnchanged(text: string)
    requires NothingToDelete(text)
    ensures CleanContent(text) == text
  {
    DeleteNoMatch(Literal(ChangningLink), text);
    DeleteNoMatch(CoverImage, text);
    DeleteNoMatch(AsciiByline, text);
  }

  /** A byline written with the fullwidth colon is not a deletion target. */
  lemma {:induction false} FullwidthBylineKept(s: string)
    requires StartsWith(s, "撰稿人：")
    ensures MatchLength(AsciiByline, s).None?
  {
    assert s[3] == '：';
    assert AsciiBylineKey[3] == ':';
  }

  /** A byline label followed directly by a cover-image link. */
  const LabelThenImage: string := "撰稿人: ![cover_image](http://x)"
  const ImageExample: string := "![cover_image](http://x)"

  lemma {:induction false} ImageExampleHasNoSpace()
    ensures forall j :: 0 <= j < |ImageExample| ==> !IsSpace(ImageExample[j])
  {
  }

  lemma {:induction false} LabelThenImageHasNoLink()
    ensures Delete(Literal(ChangningLink), LabelThenImage) == LabelThenImage
  {
    var text := LabelThenImage;
    // The literal opens with '[', which the text only has where less than
    // the literal's length is left.
    forall i | 0 <= i < |text| ensures MatchLength(Literal(ChangningLink), text[i..]).None? {
      if i <= 2 {
        assert text[i..][0] == text[i] != ChangningLink[0];
      } else {
        assert |text[i..]| < |ChangningLink|;
      }
    }
    DeleteNoMatch(Literal(ChangningLink), text);
  }

  lemma {:induction false} ImageExampleMatches()
    ensures MatchLength(CoverImage, ImageExample) == Some(|ImageExample|)
  {
    var image, n := ImageExample, |CoverImageStart|;
    assert StartsWith(image, CoverImageStart) by {
      assert image[..n] == CoverImageStart;
    }
    assert image[n] == ':';
    assert StartsWith(image[n..], "://") by {
      assert image[n..][..3] == "://";
    }
    assert SpanOut(image[n + 3..], Among({')'})) == 1;
  }

  lemma {:induction false} TagHasNoImage()
    ensures forall i :: 0 <= i < 5 ==> MatchLength(CoverImage, LabelThenImage[i..]).None?
  {
    forall i | 0 <= i < 5 ensures MatchLength(CoverImage, LabelThenImage[i..]).None? {
      var s := LabelThenImage[i..];
      assert s[0] == LabelThenImage[i] != CoverImageStart[0];
      assert !StartsWith(s, CoverImageStart) by {
        assert s[..|CoverImageStart|][0] == s[0];
      }
    }
  }

  lemma {:induction false} LabelThenImageLosesImage()
    ensures Delete(CoverImage, LabelThenImage) == "撰稿人: "
  {
    var tag, image := "撰稿人: ", ImageExample;
    assert LabelThenImage == tag + image;
    TagHasNoImage();
    ImageExampleMatches();
    DeleteTrailingMatch(CoverImage, tag, image);
  }

  lemma {:induction false} BareLabelKept()
    ensures Delete(AsciiByline, "撰稿人: ") == "撰稿人: "
  {
    var tag := "撰稿人: ";
    assert tag[..|AsciiBylineKey|] == AsciiBylineKey;
    assert tag[|AsciiBylineKey|..] == " ";
    assert SpanIn(tag[|AsciiBylineKey|..], Spaces) == 1;
    forall i | 0 <= i < |tag| ensures MatchLength(AsciiByline, tag[i..]).None? {
      if i > 0 {
        assert tag[i..][0] == tag[i];
      }
    }
    DeleteNoMatch(AsciiByline, tag);
  }

  /** One whitespace character at `i` followed by a visible one. */
  lemma {:induction false} OneSpaceAt(t: string, i: nat)
    requires i + 1 < |t| && IsSpace(t[i]) && !IsSpace(t[i + 1])
    ensures SpanIn(t[i..], Spaces) == 1
  {
    assert t[i..][0] == t[i];
    assert t[i..][1..][0] == t[i + 1];
  }

  lemma {:induction false} LabelSpaceRun()
    ensures SpanIn(LabelThenImage[4..], Spaces) == 1
  {
    assert LabelThenImage[4] == ' ' && LabelThenImage[5] == '!';
    OneSpaceAt(LabelThenImage, 4);
  }

  lemma {:induction false} LabelWordRun()
    ensures SpanOut(LabelThenImage[5..], Spaces) == |LabelThenImage| - 5
  {
    assert LabelThenImage[5..] == ImageExample;
    ImageExampleHasNoSpace();
    SpanOutRun(ImageExample, Spaces);
  }

  /** A byline key, one space, then a word running to the end: one match
      that takes the whole text. */
  lemma {:induction false} BylineTakesAll(text: string)
    requires StartsWith(text, AsciiBylineKey) && |text| > 5
    requires SpanIn(text[4..], Spaces) == 1 && SpanOut(text[5..], Spaces) == |text| - 5
    ensures Delete(AsciiByline, text) == ""
  {
    assert MatchLength(AsciiByline, text) == Some(|text|);
    assert text[|text|..] == "";
  }

  lemma {:induction false} LabelSwallowsImage()
    ensures Delete(AsciiByline, LabelThenImage) == ""
  {
    var text := LabelThenImage;
    assert StartsWith(text, AsciiBylineKey) by {
      assert text[..4] == AsciiBylineKey;
    }
    LabelSpaceRun();
    LabelWordRun();
    BylineTakesAll(text);
  }

  /** The order matters: the image link goes before the byline pattern
      looks for a word after `撰稿人:`, so the label itself stays; deleting
      bylines first would have taken the link with it. */
  lemma {:induction false} OrderOfDeletions()
    ensures CleanContent(LabelThenImage) == "撰稿人: "
    ensures Delete(AsciiByline, LabelThenImage) == ""
  {
    LabelThenImageHasNoLink();
    LabelThenImageLosesImage();
    BareLabelKept();
    LabelSwallowsImage();
  }
}
