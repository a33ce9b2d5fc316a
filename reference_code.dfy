/**
 * Step 1 of the Flex Web Service exchange: the `SendRequest` response is
 * searched for a `<ReferenceCode>` element, whose text is the code used to
 * download the statement. A response without the opening tag stops the run.
 */
module ReferenceCode {
  import opened Optional
  import opened Text

  const OpenTag: string := "<ReferenceCode>"
  const CloseTag: string := "</ReferenceCode>"

  /**
   * `text.split("<ReferenceCode>")[1].split("</ReferenceCode>")[0]`, guarded
   * by `"<ReferenceCode>" in text`; `None` is the early `exit()`.
   */
  function ExtractReferenceCode(text: string): (code: Option<string>)
    ensures code.Some? <==> Contains(text, OpenTag)
  {
    if !Contains(text, OpenTag) then None
    else Some(Split(Split(text, OpenTag)[1], CloseTag)[0])
  }

  /** What the second split keeps of the text that follows the first opening tag. */
  function CodeOf(rest: string): string {
    Split(Split(rest, OpenTag)[0], CloseTag)[0]
  }

  /**
   * Of the text after the first opening tag, the code is the longest prefix
   * free of both tags, ending at a tag or at the end of the text.
   */
  lemma CodeOfIsPrefixBeforeTag(rest: string)
    ensures var code := CodeOf(rest);
      && |code| <= |rest| && rest[..|code|] == code
      && !Contains(code, OpenTag) && !Contains(code, CloseTag)
      && (|code| == |rest| || OccursAt(rest, OpenTag, |code|) || OccursAt(rest, CloseTag, |code|))
  {
    var piece := Split(rest, OpenTag)[0];
    var code := Split(piece, CloseTag)[0];
    FirstPiece(rest, OpenTag);
    FirstPiece(piece, CloseTag);
    PrefixIsFree(piece, OpenTag, |code|);
    if |code| < |piece| {
      assert piece[|code|..|code| + |CloseTag|] == rest[|code|..|code| + |CloseTag|];
    }
  }

  /**
   * The extracted code is the text that starts right after the first
   * `<ReferenceCode>` and runs up to the next tag (`</ReferenceCode>`, or
   * a second `<ReferenceCode>`, since the first split stops there) or to the
   * end of the response; it contains neither tag.
   */
  lemma ReferenceCodeLocated(text: string)
    requires Contains(text, OpenTag)
    ensures var i := Find(text, OpenTag, 0).value;
      var start := i + |OpenTag|;
      var code := ExtractReferenceCode(text).value;
      && OccursAt(text, OpenTag, i)
      && (forall j :: 0 <= j < i ==> !OccursAt(text, OpenTag, j))
      && start + |code| <= |text| && text[start..start + |code|] == code
      && !Contains(code, OpenTag) && !Contains(code, CloseTag)
      && (start + |code| == |text|
          || OccursAt(text, OpenTag, start + |code|)
          || OccursAt(text, CloseTag, start + |code|))
  {
    var i := Find(text, OpenTag, 0).value;
    var start := i + |OpenTag|;
    var rest := text[start..];
    assert Split(text, OpenTag) == [text[..i]] + Split(rest, OpenTag);
    var code := CodeOf(rest);
    assert ExtractReferenceCode(text).value == code;
    CodeOfIsPrefixBeforeTag(rest);
    assert text[start..start + |code|] == rest[..|code|];
    if OccursAt(rest, OpenTag, |code|) {
      OccursInSuffix(text, OpenTag, start, |code|);
    }
    if OccursAt(rest, CloseTag, |code|) {
      OccursInSuffix(text, CloseTag, start, |code|);
    }
  }

  /** Each tag has `<` at its start only, and the two differ in their second character. */
  lemma TagChars()
    ensures OpenTag[0] == '<' && forall m :: 0 < m < |OpenTag| ==> OpenTag[m] != '<'
    ensures CloseTag[0] == '<' && forall m :: 0 < m < |CloseTag| ==> CloseTag[m] != '<'
    ensures OpenTag[1] != CloseTag[1]
  {
  }

  /** A tag cannot start where the string has no `<`. */
  lemma NoTagWithoutBracket(s: string, tag: string, j: nat)
    requires |tag| > 0 && tag[0] == '<' && j < |s| && s[j] != '<'
    ensures !OccursAt(s, tag, j)
  {
  }

  /** After text without an opening tag, the first opening tag is the one that follows it. */
  lemma OpenTagFollowsPrefix(pre: string, rest: string)
    requires !Contains(pre, OpenTag)
    ensures Find(pre + OpenTag + rest, OpenTag, 0) == Some(|pre|)
  {
    TagChars();
    var text := pre + OpenTag + rest;
    var i := |pre|;
    assert text[i..i + |OpenTag|] == OpenTag;
    forall j | 0 <= j < i ensures !OccursAt(text, OpenTag, j) {
      if j + |OpenTag| <= i {
        assert text[j..j + |OpenTag|] == pre[j..j + |OpenTag|];
        assert !OccursAt(pre, OpenTag, j);
      } else {
        assert text[i] == '<';
      }
    }
    FindIsFirst(text, OpenTag, i);
  }

  /** A code without `<` followed by the closing tag is cut exactly at that tag. */
  lemma CodeBeforeCloseTag(code: string, post: string)
    requires '<' !in code
    ensures CodeOf(code + CloseTag + post) == code
  {
    TagChars();
    var rest := code + CloseTag + post;
    var piece := Split(rest, OpenTag)[0];
    FirstPiece(rest, OpenTag);
    var n := |code|;
    assert rest[n..n + |CloseTag|] == CloseTag;
    // The piece runs past the closing tag: no opening tag starts before its end.
    forall p | 0 <= p < n + |CloseTag| ensures !OccursAt(rest, OpenTag, p) {
      if p < n {
        assert rest[p] == code[p];
        NoTagWithoutBracket(rest, OpenTag, p);
      } else if p == n {
        assert rest[n + 1] == CloseTag[1];
      } else {
        assert rest[p] == CloseTag[p - n];
        NoTagWithoutBracket(rest, OpenTag, p);
      }
    }
    assert |piece| >= n + |CloseTag|;
    assert piece[n..n + |CloseTag|] == CloseTag;
    forall j | 0 <= j < n ensures !OccursAt(piece, CloseTag, j) {
      assert piece[j] == code[j];
      NoTagWithoutBracket(piece, CloseTag, j);
    }
    FindIsFirst(piece, CloseTag, n);
    assert piece[..n] == code;
  }

  /**
   * Embedding a code without `<` in a `<ReferenceCode>` element, after text
   * without that tag, and extracting it gives the code back.
   */
  lemma ExtractEmbedded(pre: string, code: string, post: string)
    requires !Contains(pre, OpenTag) && '<' !in code
    ensures ExtractReferenceCode(pre + OpenTag + code + CloseTag + post) == Some(code)
  {
    var rest := code + CloseTag + post;
    var text := pre + OpenTag + rest;
    assert text == pre + OpenTag + code + CloseTag + post;
    OpenTagFollowsPrefix(pre, rest);
    assert OccursAt(text, OpenTag, |pre|);
    assert text[|pre| + |OpenTag|..] == rest;
    assert Split(text, OpenTag)[1] == Split(rest, OpenTag)[0];
    CodeBeforeCloseTag(code, post);
  }
}
