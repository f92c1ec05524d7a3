// Comments, as texts: what may stand between tokens besides white space, and that the scanner takes
// such a text for one token.
module Comments {
  import opened Text
  import opened Scanner

  /** The body does not contain the end of a block comment. */
  ghost predicate NoBlockEnd(body: string) {
    forall k :: 0 <= k < |body| - 1 ==> !(body[k] == '*' && body[k + 1] == '/')
  }

  ghost predicate IsLineBreak(c: char) {
    c == '\n' || c == '\r'
  }

  ghost predicate NoLineBreak(body: string) {
    forall k :: 0 <= k < |body| ==> !IsLineBreak(body[k])
  }

  ghost predicate IsBlockComment(c: string) {
    exists body :: BlockComment(c, body)
  }

  ghost predicate BlockComment(c: string, body: string) {
    c == "/*" + (body + "*/") && NoBlockEnd(body)
  }

  /** A line comment reaches up to and including the first line break. */
  ghost predicate LineComment(c: string, body: string, end: char) {
    c == "//" + (body + [end]) && NoLineBreak(body) && IsLineBreak(end)
  }

  ghost predicate IsLineComment(c: string) {
    exists body, end :: LineComment(c, body, end)
  }

  ghost predicate IsComment(c: string) {
    IsBlockComment(c) || IsLineComment(c)
  }

  lemma CommentStart(c: string)
    requires IsComment(c)
    ensures |c| >= 3 && c[0] == '/' && (c[1] == '*' || c[1] == '/')
  {
    if IsBlockComment(c) {
      var body :| BlockComment(c, body);
    } else {
      var body, end :| LineComment(c, body, end);
    }
  }

  /** White space, and comments if they are allowed. */
  ghost predicate Filler(comments: bool, s: string)
    decreases |s|
  {
    AllSpaces(s) || (comments && exists sp, c, rest :: Begins(s, sp, c, rest) && |rest| < |s| && Filler(true, rest))
  }

  /** White space, a comment, and the rest. */
  ghost predicate Begins(s: string, sp: string, c: string, rest: string) {
    s == sp + (c + rest) && AllSpaces(sp) && IsComment(c)
  }

  // ---------- the scanner reads comments ----------

  lemma {:induction false} BlockIsScanned(doc: string, i: nat, j: nat, body: string)
    requires At(doc, i, j, body + "*/") && NoBlockEnd(body)
    ensures ScanCStyle(doc, i) == Scan(true, j)
    decreases |body|
  {
    var text := body + "*/";
    AtFirst(doc, i, j, text);
    AtFirst(doc, i + 1, j, text[1..]);
    if body != "" {
      assert text[1..] == body[1..] + "*/";
      assert text[1] == if |body| > 1 then body[1] else '*';
      forall k | 0 <= k < |body[1..]| - 1 ensures !(body[1..][k] == '*' && body[1..][k + 1] == '/') {
        assert !(body[k + 1] == '*' && body[k + 2] == '/');
      }
      BlockIsScanned(doc, i + 1, j, body[1..]);
    }
  }

  lemma {:induction false} LineIsScanned(doc: string, i: nat, j: nat, body: string, end: char)
    requires At(doc, i, j, body + [end]) && NoLineBreak(body) && IsLineBreak(end)
    ensures SkipLine(doc, i) == j
    decreases |body|
  {
    var text := body + [end];
    AtFirst(doc, i, j, text);
    if body != "" {
      assert text[1..] == body[1..] + [end];
      assert body[0] == text[0] && !IsLineBreak(body[0]);
      assert forall k :: 0 <= k < |body[1..]| ==> body[1..][k] == body[k + 1];
      LineIsScanned(doc, i + 1, j, body[1..], end);
    }
  }

  lemma {:induction false} LastLineIsScanned(doc: string, i: nat, body: string)
    requires At(doc, i, |doc|, body) && NoLineBreak(body)
    ensures SkipLine(doc, i) == |doc|
    decreases |body|
  {
    if body != "" {
      AtFirst(doc, i, |doc|, body);
      assert !IsLineBreak(body[0]);
      assert forall k :: 0 <= k < |body[1..]| ==> body[1..][k] == body[k + 1];
      LastLineIsScanned(doc, i + 1, body[1..]);
    }
  }

  /** A comment is one token. */
  lemma CommentIsRead(doc: string, i: nat, j: nat, c: string)
    requires At(doc, i, j, c) && IsComment(c)
    ensures ReadToken(doc, i) == Token(CommentToken, i, j)
  {
    CommentStart(c);
    AtFirst(doc, i, j, c);
    AtFirst(doc, i + 1, j, c[1..]);
    if IsBlockComment(c) {
      var body :| BlockComment(c, body);
      assert c[1..][1..] == body + "*/";
      BlockIsScanned(doc, i + 2, j, body);
    } else {
      var body, end :| LineComment(c, body, end);
      assert c[1..][1..] == body + [end];
      LineIsScanned(doc, i + 2, j, body, end);
    }
  }

  /** At the end of the document a line comment needs no line break. */
  lemma LastCommentIsRead(doc: string, i: nat, body: string)
    requires At(doc, i, |doc|, "//" + body) && NoLineBreak(body)
    ensures ReadToken(doc, i) == Token(CommentToken, i, |doc|)
  {
    var c := "//" + body;
    AtFirst(doc, i, |doc|, c);
    AtFirst(doc, i + 1, |doc|, c[1..]);
    assert c[1..][1..] == body;
    LastLineIsScanned(doc, i + 2, body);
  }

  /** Comments and white space in front of a token are skipped. */
  lemma {:induction false} FillerIsSkipped(doc: string, i: nat, j: nat, s: string)
    requires At(doc, i, j, s) && Filler(true, s)
    ensures i <= j <= |doc| && SkipComments(doc, i) == SkipComments(doc, j)
    decreases |s|
  {
    if AllSpaces(s) {
      ReadTokenAfterSpaces(doc, i, j, s);
      SkipCommentsSame(doc, i, j);
    } else {
      var sp, c, rest :| Begins(s, sp, c, rest) && |rest| < |s| && Filler(true, rest);
      hide At, ReadToken, IsComment, Filler;
      var m := AtSplit(doc, i, j, sp, c + rest);
      var n := AtSplit(doc, m, j, c, rest);
      ReadTokenAfterSpaces(doc, i, m, sp);
      CommentIsRead(doc, m, n, c);
      FillerIsSkipped(doc, n, j, rest);
      BoundOf(doc, i, j, s);
      BoundOf(doc, m, n, c);
    }
  }

  lemma BoundOf(doc: string, i: nat, j: nat, s: string)
    requires At(doc, i, j, s)
    ensures i <= j <= |doc|
  {
  }

  lemma SkipCommentsSame(doc: string, i: nat, j: nat)
    requires i <= |doc| && j <= |doc| && ReadToken(doc, i) == ReadToken(doc, j)
    ensures SkipComments(doc, i) == SkipComments(doc, j)
  {
  }

  /** A filler starts with white space or a slash. */
  lemma FillerStart(comments: bool, s: string)
    requires Filler(comments, s) && s != ""
    ensures IsSpace(s[0]) || s[0] == '/'
  {
    if !AllSpaces(s) {
      var sp, c, rest :| Begins(s, sp, c, rest) && |rest| < |s| && Filler(true, rest);
      CommentStart(c);
      assert s[0] == if sp == "" then c[0] else sp[0];
    }
  }

  /** Behind its leading white space a filler shows a slash, or what follows it. */
  lemma FillerShows(doc: string, i: nat, j: nat, comments: bool, s: string)
    requires At(doc, i, j, s) && Filler(comments, s)
    ensures i <= |doc| && (SkipSpaces(doc, i) == SkipSpaces(doc, j) || Peek(doc, SkipSpaces(doc, i)) == '/')
  {
    BoundOf(doc, i, j, s);
    if AllSpaces(s) {
      SkipSpacesOver(doc, i, j, s);
    } else {
      var sp, c, rest :| Begins(s, sp, c, rest) && |rest| < |s| && Filler(true, rest);
      CommentStart(c);
      var m := AtSplit(doc, i, j, sp, c + rest);
      var n := AtSplit(doc, m, j, c, rest);
      SkipSpacesOver(doc, i, m, sp);
      AtFirst(doc, m, n, c);
    }
  }
}
