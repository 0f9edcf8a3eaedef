/**
 * The TODO/FIXME scanner of src/bookmarkService.ts: which files are scanned,
 * how one line of a file becomes a bookmark, how a scanned file becomes a
 * list of bookmarks in line order, and how a bookmark becomes a task with an
 * id derived from its location. The match follows the regular expression
 * `\b(TODO|FIXME):\s*(.*)` with the `i` flag: word boundary, ASCII
 * case-insensitive letters, optional white space, then the rest of the line
 * up to a line terminator.
 */
module Bookmarks {
  import opened Wrappers
  import opened JsText
  import opened Types
  import opened NodePath

  datatype TagKind = Todo | Fixme

  /** The upper-case tag word. */
  function TagName(k: TagKind): string
  {
    match k
    case Todo => "TODO"
    case Fixme => "FIXME"
  }

  datatype BookmarkComment = BookmarkComment(
    kind: TagKind,
    content: string,
    filePath: string,
    lineNumber: int,
    fullLine: string)

  // ---------------------------------------------------------------- files

  /** The extensions, lower case, whose files are scanned. */
  const CodeExtensions: seq<string> := [
    ".ts", ".js", ".tsx", ".jsx", ".json",
    ".py", ".java", ".c", ".cpp", ".h", ".hpp",
    ".cs", ".php", ".rb", ".go", ".rs", ".swift",
    ".kt", ".scala", ".dart", ".vue", ".svelte",
    ".html", ".css", ".scss", ".less", ".sass",
    ".xml", ".yaml", ".yml", ".toml", ".ini",
    ".sql", ".sh", ".ps1", ".bat", ".cmd",
    ".md", ".txt", ".config", ".conf",
    ".dockerfile", ".gitignore", ".env"]

  /** `isCodeFile`: the lower-cased extension is listed, or there is none. */
  function IsCodeFile(filePath: string): (r: bool)
    ensures Extname(filePath) == [] ==> r
    ensures r <==> ToLower(Extname(filePath)) in CodeExtensions || Extname(filePath) == []
  {
    var ext := ToLower(Extname(filePath));
    ext in CodeExtensions || ext == []
  }

  /** A name whose extension is listed, in any letter case, is scanned wherever it lives. */
  lemma {:induction false} IsCodeFileOfName(dir: string, stem: string, ext: string)
    requires stem != [] && stem != "." && '/' !in stem
    requires ext != [] && ext[0] == '.' && '.' !in ext[1..] && '/' !in ext
    ensures IsCodeFile(dir + "/" + stem + ext) <==> ToLower(ext) in CodeExtensions
  {
    var name := stem + ext;
    assert '/' !in name by {
      forall i | 0 <= i < |name| ensures name[i] != '/' {
        if i < |stem| { assert name[i] == stem[i]; } else { assert name[i] == ext[i - |stem|]; }
      }
    }
    assert dir + "/" + stem + ext == dir + "/" + name;
    BasenameOfJoin(dir, name);
    ExtOfStemAndExtension(stem, ext);
  }

  // ---------------------------------------------------------------- one line

  /** A character `\b` counts as part of a word. */
  predicate IsWordChar(c: char)
  {
    IsAsciiAlnum(c) || c == '_'
  }

  /** Position `i` starts a word: `\b` before a word character. */
  predicate AtWordStart(line: string, i: nat)
    requires i <= |line|
  {
    i == 0 || !IsWordChar(line[i - 1])
  }

  /** `w` (upper case) occurs at `i`, ignoring the case of ASCII letters. */
  predicate HasWordAt(line: string, i: nat, w: string)
  {
    i + |w| <= |line| && forall k :: 0 <= k < |w| ==> ToUpperChar(line[i + k]) == w[k]
  }

  /** The tag, followed by its colon, that the pattern matches at position `i`. */
  function TagAt(line: string, i: nat): (r: Option<TagKind>)
    requires i <= |line|
    ensures r.Some? ==> AtWordStart(line, i) && HasWordAt(line, i, TagName(r.value) + ":")
  {
    if !AtWordStart(line, i) then None
    else if HasWordAt(line, i, TagName(Todo) + ":") then Some(Todo)
    else if HasWordAt(line, i, TagName(Fixme) + ":") then Some(Fixme)
    else None
  }

  /** The leftmost position at or after `i` where a tag matches. */
  function FindTag(line: string, i: nat): (r: Option<nat>)
    requires i <= |line|
    ensures r.Some? ==> i <= r.value < |line| && TagAt(line, r.value).Some?
    ensures r.Some? ==> forall j :: i <= j < r.value ==> TagAt(line, j).None?
    ensures r.None? ==> forall j :: i <= j <= |line| ==> TagAt(line, j).None?
    decreases |line| - i
  {
    if TagAt(line, i).Some? then Some(i)
    else if i == |line| then None
    else FindTag(line, i + 1)
  }

  /** The end of the run of non-terminator characters starting at `j`: where `.*` stops. */
  function LineEnd(line: string, j: nat): (e: nat)
    requires j <= |line|
    ensures j <= e <= |line|
    ensures e < |line| ==> IsLineTerminator(line[e])
    ensures forall k :: j <= k < e ==> !IsLineTerminator(line[k])
    decreases |line| - j
  {
    if j < |line| && !IsLineTerminator(line[j]) then LineEnd(line, j + 1) else j
  }

  /** What `(.*)` captures from `j`: the characters up to the first line terminator. */
  function Captured(line: string, j: nat): (g: string)
    requires j <= |line|
    ensures j + |g| == LineEnd(line, j)
    decreases |line| - j
  {
    if j < |line| && !IsLineTerminator(line[j]) then [line[j]] + Captured(line, j + 1) else []
  }

  /** Each captured character is the line's character at the same offset, and none ends the line. */
  lemma {:induction false} CapturedChars(line: string, j: nat)
    requires j <= |line|
    ensures forall k :: 0 <= k < |Captured(line, j)| ==> Captured(line, j)[k] == line[j + k] && !IsLineTerminator(Captured(line, j)[k])
    decreases |line| - j
  {
    if j < |line| && !IsLineTerminator(line[j]) {
      CapturedChars(line, j + 1);
      var g := Captured(line, j);
      forall k | 1 <= k < |g| ensures g[k] == line[j + k] && !IsLineTerminator(g[k]) {
        assert g[k] == Captured(line, j + 1)[k - 1];
      }
    }
  }

  /** `(.*)` from `j`, trimmed: the captured text without its surrounding white space. */
  function RestOfLine(line: string, j: nat): (r: string)
    requires j <= |line|
    ensures IsTrimmed(r)
    ensures forall k :: 0 <= k < |r| ==> !IsLineTerminator(r[k])
  {
    var captured := Captured(line, j);
    CapturedChars(line, j);
    TrimIsMiddle(captured);
    TrimKeepsNoTerminator(captured);
    Trim(captured)
  }

  /** The rest of the line is the capture of `(.*)`, trimmed. */
  lemma {:induction false} RestOfLineIsTrimmedCapture(line: string, j: nat)
    requires j <= |line|
    ensures RestOfLine(line, j) == Trim(Captured(line, j))
  {
  }

  /** The tag matched at `pos` and the trimmed text captured after it. */
  function MatchAt(line: string, pos: nat): (r: (TagKind, string))
    requires pos <= |line| && TagAt(line, pos).Some?
    ensures r.0 == TagAt(line, pos).value
    ensures pos + |TagName(r.0)| + 1 <= |line|
    ensures IsTrimmed(r.1)
    ensures forall k :: 0 <= k < |r.1| ==> !IsLineTerminator(r.1[k])
  {
    var kind := TagAt(line, pos).value;
    TagFits(line, pos);
    var after := pos + |TagName(kind)| + 1;
    (kind, RestOfLine(line, SkipSpace(line, after, |line|)))
  }

  /** A matched tag and its colon fit in the line. */
  lemma {:induction false} TagFits(line: string, pos: nat)
    requires pos <= |line| && TagAt(line, pos).Some?
    ensures pos + |TagName(TagAt(line, pos).value)| + 1 <= |line|
  {
    var w := TagName(TagAt(line, pos).value);
    assert HasWordAt(line, pos, w + ":");
    assert |w + ":"| == |w| + 1;
  }

  /**
   * The content is what `(.*)` captures once `\s*` has skipped the white
   * space after the colon, trimmed.
   */
  lemma {:induction false} MatchAtContent(line: string, pos: nat, after: nat, kind: TagKind)
    requires pos <= |line| && TagAt(line, pos) == Some(kind)
    requires after == pos + |TagName(kind)| + 1
    ensures after <= |line|
    ensures MatchAt(line, pos) == (kind, Trim(Captured(line, SkipSpace(line, after, |line|))))
  {
    MatchAtRest(line, pos, after, kind);
    RestOfLineIsTrimmedCapture(line, SkipSpace(line, after, |line|));
  }

  /** The text `MatchAt` reports is the rest of the line after the white space that follows the colon. */
  lemma {:induction false} MatchAtRest(line: string, pos: nat, after: nat, kind: TagKind)
    requires pos <= |line| && TagAt(line, pos) == Some(kind)
    requires after == pos + |TagName(kind)| + 1
    ensures after <= |line|
    ensures MatchAt(line, pos) == (kind, RestOfLine(line, SkipSpace(line, after, |line|)))
  {
    TagFits(line, pos);
  }

  /** Trimming text that holds no line terminator leaves none. */
  lemma {:induction false} TrimKeepsNoTerminator(s: string)
    requires forall k :: 0 <= k < |s| ==> !IsLineTerminator(s[k])
    ensures forall k :: 0 <= k < |Trim(s)| ==> !IsLineTerminator(Trim(s)[k])
  {
    TrimIsSlice(s);
    var t := Trim(s);
    var k0 := |s| - |TrimStart(s)|;
    assert k0 + |t| <= |s| && t == s[k0..k0 + |t|];
    forall k | 0 <= k < |t| ensures !IsLineTerminator(t[k]) {
      assert t[k] == s[k0 + k];
    }
  }

  /**
   * `line.match(TODO_FIXME_PATTERN)` reduced to what the scanner keeps: the
   * tag and the trimmed second group, from the leftmost match.
   */
  function MatchLine(line: string): (r: Option<(TagKind, string)>)
    ensures r.Some? <==> exists i :: 0 <= i <= |line| && TagAt(line, i).Some?
    ensures r.Some? ==> IsTrimmed(r.value.1)
  {
    match FindTag(line, 0)
    case None => None
    case Some(pos) => Some(MatchAt(line, pos))
  }

  /**
   * A line whose leftmost tag is `kind` at `pos`, its colon ending right
   * before `after`, reports that tag and the trimmed text captured after it.
   */
  lemma {:induction false} MatchLineContent(line: string, pos: nat, after: nat, kind: TagKind)
    requires FindTag(line, 0) == Some(pos) && pos <= |line| && TagAt(line, pos) == Some(kind)
    requires after == pos + |TagName(kind)| + 1
    ensures after <= |line|
    ensures MatchLine(line) == Some((kind, Trim(Captured(line, SkipSpace(line, after, |line|)))))
  {
    MatchAtContent(line, pos, after, kind);
  }

  /** Text matched case-insensitively against an upper-case word upper-cases to that word. */
  lemma {:induction false} UppercaseOfMatch(line: string, pos: nat, w: string)
    requires HasWordAt(line, pos, w + ":")
    ensures pos + |w| <= |line| && ToUpper(line[pos..pos + |w|]) == w
  {
    var u := ToUpper(line[pos..pos + |w|]);
    forall k | 0 <= k < |w| ensures u[k] == w[k] {
      assert (w + ":")[k] == w[k];
      assert line[pos..pos + |w|][k] == line[pos + k];
    }
  }

  /** The reported tag is the one found at the leftmost match position. */
  lemma {:induction false} MatchedKind(line: string)
    requires FindTag(line, 0).Some?
    ensures MatchLine(line).Some? && MatchLine(line).value.0 == TagAt(line, FindTag(line, 0).value).value
  {
  }

  /** That tag's name is the matched text upper-cased. */
  lemma {:induction false} TagIsUppercasedMatch(line: string)
    requires FindTag(line, 0).Some?
    ensures var pos := FindTag(line, 0).value;
      var kind := TagAt(line, pos).value;
      pos + |TagName(kind)| <= |line| && ToUpper(line[pos..pos + |TagName(kind)|]) == TagName(kind)
  {
    var pos := FindTag(line, 0).value;
    UppercaseOfMatch(line, pos, TagName(TagAt(line, pos).value));
  }

  /** The bookmark line `lineNumber` of a file yields, if it matches. */
  function BookmarkOf(line: string, filePath: string, lineNumber: int): (r: Option<BookmarkComment>)
    ensures r.Some? <==> MatchLine(line).Some?
    ensures r.Some? ==>
      (r.value.lineNumber == lineNumber && r.value.filePath == filePath &&
       r.value.fullLine == Trim(line) && IsTrimmed(r.value.content))
    ensures r.Some? ==> r.value.kind == MatchLine(line).value.0 && r.value.content == MatchLine(line).value.1
  {
    match MatchLine(line)
    case None => None
    case Some(m) => Some(BookmarkComment(m.0, m.1, filePath, lineNumber, Trim(line)))
  }

  /** No tag starts at a character that is neither `t` nor `f` in either case. */
  lemma {:induction false} NoTagAt(line: string, i: nat)
    requires i < |line| && ToUpperChar(line[i]) != 'T' && ToUpperChar(line[i]) != 'F'
    ensures TagAt(line, i).None?
  {
    assert (TagName(Todo) + ":")[0] == 'T';
    assert (TagName(Fixme) + ":")[0] == 'F';
  }

  /** A tag glued to a preceding letter is no match. */
  lemma {:induction false} GluedTagIsNoMatch()
    ensures MatchLine("xTODO:").None?
  {
    var a := "xTODO:";
    assert !AtWordStart(a, 1);
    NoTagAt(a, 0);
    NoTagAt(a, 2);
    NoTagAt(a, 3);
    NoTagAt(a, 4);
    NoTagAt(a, 5);
    assert TagAt(a, 6).None?;
    assert forall i :: 0 <= i <= |a| ==> TagAt(a, i).None?;
  }

  /** After punctuation the tag matches in any case, and the captured text is trimmed. */
  lemma {:induction false} CommentTagMatches()
    ensures MatchLine("// todo:  fix me ") == Some((Todo, "fix me"))
  {
    var b := "// todo:  fix me ";
    CommentTagPosition(b);
    CommentTagCapture(b);
  }

  lemma {:induction false} CommentTagPosition(b: string)
    requires b == "// todo:  fix me "
    ensures FindTag(b, 0) == Some(3) && TagAt(b, 3) == Some(Todo)
  {
    NoTagAt(b, 0);
    NoTagAt(b, 1);
    NoTagAt(b, 2);
    LowerTodoAt(b);
    assert FindTag(b, 3) == Some(3);
    assert FindTag(b, 2) == Some(3);
    assert FindTag(b, 1) == Some(3);
  }

  lemma {:induction false} LowerTodoAt(b: string)
    requires b == "// todo:  fix me "
    ensures TagAt(b, 3) == Some(Todo)
  {
    var w := TagName(Todo) + ":";
    assert w == "TODO:";
    assert HasWordAt(b, 3, w);
  }

  lemma {:induction false} CommentTagCapture(b: string)
    requires b == "// todo:  fix me " && TagAt(b, 3) == Some(Todo)
    ensures MatchAt(b, 3) == (Todo, "fix me")
  {
    assert b[8] == ' ' && b[9] == ' ' && b[10] == 'f';
    assert SkipSpace(b, 10, |b|) == 10;
    assert SkipSpace(b, 9, |b|) == 10;
    assert SkipSpace(b, 8, |b|) == 10;
    MatchAtContent(b, 3, 8, Todo);
    CapturedFixMe(b);
    TrimFixMe();
  }

  lemma {:induction false} CapturedFixMe(b: string)
    requires b == "// todo:  fix me "
    ensures Captured(b, 10) == "fix me "
  {
    assert forall q :: 10 <= q < |b| ==> !IsLineTerminator(b[q]);
    CapturedToEnd(b, 10);
    assert b[10..] == "fix me ";
  }

  lemma {:induction false} TrimFixMe()
    ensures Trim("fix me ") == "fix me"
  {
    var c := "fix me ";
    assert TrimStart(c) == c;
    assert TrimEnd(c) == "fix me" by {
      assert c[..6] == "fix me";
      assert TrimEnd("fix me") == "fix me";
    }
  }

  /**
   * A comment line `pre TAG: c`, with no colon before the tag and no word
   * character right before it, matches that tag, and the content is `c`
   * trimmed (as long as `c` stays on one line).
   */
  lemma {:induction false} MatchLineOfComment(pre: string, k: TagKind, c: string)
    requires ':' !in pre
    requires pre == [] || !IsWordChar(pre[|pre| - 1])
    requires forall i :: 0 <= i < |c| ==> !IsLineTerminator(c[i])
    ensures MatchLine(pre + TagName(k) + ":" + c) == Some((k, Trim(c)))
  {
    var line := pre + TagName(k) + ":" + c;
    var after := |pre| + |TagName(k)| + 1;
    FindTagOfComment(line, pre, k, c);
    CommentAfterColon(line, pre, k, c, after);
    ContentOfRest(line, after, c);
    MatchLineContent(line, |pre|, after, k);
  }

  /** What follows the colon of `pre TAG: c` is `c`. */
  lemma {:induction false} CommentAfterColon(line: string, pre: string, k: TagKind, c: string, after: nat)
    requires line == pre + TagName(k) + ":" + c && after == |pre| + |TagName(k)| + 1
    ensures |line| == after + |c|
    ensures forall i :: 0 <= i < |c| ==> line[after + i] == c[i]
  {
  }

  /** On the last line of a text, `\s*(.*)` from `after`, trimmed, is the rest of the text trimmed. */
  lemma {:induction false} ContentOfRest(line: string, after: nat, c: string)
    requires |line| == after + |c|
    requires forall i :: 0 <= i < |c| ==> line[after + i] == c[i]
    requires forall i :: 0 <= i < |c| ==> !IsLineTerminator(c[i])
    ensures Trim(Captured(line, SkipSpace(line, after, |line|))) == Trim(c)
  {
    assert line[after..] == c;
    CapturedAfterColon(line, after);
    TrimOfTrimStart(c);
  }

  /** On the last line of a text, `\s*(.*)` from `after` captures the rest without its leading white space. */
  lemma {:induction false} CapturedAfterColon(line: string, after: nat)
    requires after <= |line|
    requires forall q :: 0 <= q < |line[after..]| ==> !IsLineTerminator(line[after..][q])
    ensures Captured(line, SkipSpace(line, after, |line|)) == TrimStart(line[after..])
  {
    var s := SkipSpace(line, after, |line|);
    SkipSpaceIsTrimStart(line, after);
    NoTerminatorAfter(line, after);
    CapturedToEnd(line, s);
    TrimStartOfRest(line, after);
  }

  /** A rest of the line without line terminators has none at any position from `after` on. */
  lemma {:induction false} NoTerminatorAfter(line: string, after: nat)
    requires after <= |line|
    requires forall q :: 0 <= q < |line[after..]| ==> !IsLineTerminator(line[after..][q])
    ensures forall q :: after <= q < |line| ==> !IsLineTerminator(line[q])
  {
    forall q | after <= q < |line| ensures !IsLineTerminator(line[q]) {
      assert line[q] == line[after..][q - after];
    }
  }

  /** A suffix of the rest of the line from `after` is a suffix of the line. */
  lemma {:induction false} SuffixOfRest(line: string, after: nat, t: string)
    requires after <= |line| && |t| <= |line| - after
    requires t == line[after..][|line| - after - |t|..]
    ensures t == line[|line| - |t|..]
  {
    forall k | 0 <= k < |t| ensures t[k] == line[|line| - |t| + k] {
      assert t[k] == line[after..][|line| - after - |t| + k];
    }
  }

  /** `trimStart` of the rest from `after` is the line from where the white space ends. */
  lemma {:induction false} TrimStartOfRest(line: string, after: nat)
    requires after <= |line|
    ensures |TrimStart(line[after..])| <= |line|
    ensures TrimStart(line[after..]) == line[|line| - |TrimStart(line[after..])|..]
  {
    var c := line[after..];
    var t := TrimStart(c);
    TrimStartIsSuffix(c);
    SuffixOfRest(line, after, t);
  }

  /** With no line terminator from `j` on, `(.*)` captures the rest of the text. */
  lemma {:induction false} CapturedToEnd(line: string, j: nat)
    requires j <= |line|
    requires forall q :: j <= q < |line| ==> !IsLineTerminator(line[q])
    ensures Captured(line, j) == line[j..]
  {
    var g := Captured(line, j);
    CapturedChars(line, j);
    assert |g| == |line| - j;
    assert forall k :: 0 <= k < |g| ==> g[k] == line[j..][k];
  }

  /** The search finds the tag right after `pre`. */
  lemma {:induction false} FindTagOfComment(line: string, pre: string, k: TagKind, c: string)
    requires ':' !in pre
    requires pre == [] || !IsWordChar(pre[|pre| - 1])
    requires line == pre + TagName(k) + ":" + c
    ensures |pre| <= |line| && FindTag(line, 0) == Some(|pre|) && TagAt(line, |pre|) == Some(k)
  {
    NoTagBeforeComment(line, pre, k, c);
    TagOfComment(line, pre, k, c);
    FindTagFirst(line, 0, |pre|);
  }

  /** No tag starts inside `pre` when `pre` holds no colon and a tag follows it. */
  lemma {:induction false} NoTagBeforeComment(line: string, pre: string, k: TagKind, c: string)
    requires ':' !in pre
    requires line == pre + TagName(k) + ":" + c
    ensures forall i :: 0 <= i < |pre| ==> TagAt(line, i).None?
  {
    var p := |pre|;
    forall i | 0 <= i < p ensures TagAt(line, i).None? {
      NoColonBeforeTag(pre, k, c, i + 4);
      assert !HasWordAt(line, i, TagName(Todo) + ":") by {
        assert (TagName(Todo) + ":")[4] == ':';
      }
      assert !HasWordAt(line, i, TagName(Fixme) + ":") by {
        assert (TagName(Fixme) + ":")[5] == ':';
        assert (TagName(Fixme) + ":")[1] == 'I';
        if i + 5 < p + |TagName(k)| {
          NoColonBeforeTag(pre, k, c, i + 5);
        } else {
          // Only a FIXME starting at the last character of `pre` could reach the colon of a TODO.
          assert line[i + 1] == TagName(k)[0] == 'T';
        }
      }
    }
  }

  /** Before the colon that follows the tag, nothing upper-cases to a colon. */
  lemma {:induction false} NoColonBeforeTag(pre: string, k: TagKind, c: string, j: nat)
    requires ':' !in pre && j < |pre| + |TagName(k)|
    ensures j < |pre + TagName(k) + ":" + c| && ToUpperChar((pre + TagName(k) + ":" + c)[j]) != ':'
  {
    var line := pre + TagName(k) + ":" + c;
    if j < |pre| {
      assert line[j] == pre[j];
    } else {
      assert line[j] == TagName(k)[j - |pre|];
    }
  }

  /** The tag after `pre` matches where it stands. */
  lemma {:induction false} TagOfComment(line: string, pre: string, k: TagKind, c: string)
    requires pre == [] || !IsWordChar(pre[|pre| - 1])
    requires line == pre + TagName(k) + ":" + c
    ensures |pre| <= |line| && TagAt(line, |pre|) == Some(k)
  {
    var w := TagName(k) + ":";
    assert line == pre + w + c;
    assert AtWordStart(line, |pre|) by {
      if pre != [] { assert line[|pre| - 1] == pre[|pre| - 1]; }
    }
    forall j | 0 <= j < |w| ensures ToUpperChar(line[|pre| + j]) == w[j] {
      assert line[|pre| + j] == w[j];
    }
    assert HasWordAt(line, |pre|, w);
    if k == Fixme {
      assert !HasWordAt(line, |pre|, TagName(Todo) + ":") by {
        assert ToUpperChar(line[|pre|]) == 'F';
        assert (TagName(Todo) + ":")[0] == 'T';
      }
    }
  }

  /** A tag at `p` with none from `i` up to `p` is what the search from `i` finds. */
  lemma {:induction false} FindTagFirst(line: string, i: nat, p: nat)
    requires i <= p <= |line| && TagAt(line, p).Some?
    requires forall j :: i <= j < p ==> TagAt(line, j).None?
    ensures FindTag(line, i) == Some(p)
    decreases p - i
  {
    if i < p {
      FindTagFirst(line, i + 1, p);
    }
  }

  /** Skipping white space from `i` lands where `trimStart` of the rest begins. */
  lemma {:induction false} SkipSpaceIsTrimStart(line: string, i: nat)
    requires i <= |line|
    ensures SkipSpace(line, i, |line|) == |line| - |TrimStart(line[i..])|
  {
    var rest := line[i..];
    var j := SkipSpace(line, i, |line|);
    var j' := |line| - |TrimStart(rest)|;
    SkipSpaceSkipsWhitespace(line, i, |line|);
    assert forall q :: i <= q < j' ==> IsWhitespace(line[q]) by {
      forall q | i <= q < j' ensures IsWhitespace(line[q]) {
        assert line[q] == rest[q - i];
      }
    }
    assert j' < |line| ==> !IsWhitespace(line[j']) by {
      if j' < |line| {
        assert TrimStart(rest)[0] == rest[j' - i] == line[j'];
      }
    }
  }

  // ---------------------------------------------------------------- one file

  /** What a line yields, given its text and its line number. */
  type LineScanner = (string, int) -> Option<BookmarkComment>

  /** The scanner of one file: `BookmarkOf` with the file's path. */
  function FileScanner(filePath: string): LineScanner
  {
    (line, lineNumber) => BookmarkOf(line, filePath, lineNumber)
  }

  /** A scanner stamps what it yields with the line number it is given. */
  ghost predicate Numbers(scan: LineScanner)
  {
    forall line, m :: scan(line, m).Some? ==> scan(line, m).value.lineNumber == m
  }

  /** The bookmarks of the first `n` lines, in line order. */
  function ScanLines(scan: LineScanner, lines: seq<string>, n: nat): seq<BookmarkComment>
    requires n <= |lines|
  {
    if n == 0 then []
    else
      var found := scan(lines[n - 1], n);
      ScanLines(scan, lines, n - 1) + if found.Some? then [found.value] else []
  }

  /** Each bookmark of `r` is what its line, among the first `n`, yields. */
  ghost predicate AllYielded(scan: LineScanner, lines: seq<string>, n: nat, r: seq<BookmarkComment>)
    requires n <= |lines|
  {
    forall k :: 0 <= k < |r| ==>
      (1 <= r[k].lineNumber <= n && scan(lines[r[k].lineNumber - 1], r[k].lineNumber) == Some(r[k]))
  }

  /** Line numbers strictly increase along `r`. */
  ghost predicate InLineOrder(r: seq<BookmarkComment>)
  {
    forall k, l :: 0 <= k < l < |r| ==> r[k].lineNumber < r[l].lineNumber
  }

  /** Every line among the first `n` that yields a bookmark has one in `r`. */
  ghost predicate NoneMissed(scan: LineScanner, lines: seq<string>, n: nat, r: seq<BookmarkComment>)
    requires n <= |lines|
  {
    forall i :: 0 <= i < n && scan(lines[i], i + 1).Some? ==> exists k :: 0 <= k < |r| && r[k].lineNumber == i + 1
  }

  /** Scanning one more line appends what that line yields. */
  lemma ScanLinesStep(scan: LineScanner, lines: seq<string>, n: nat)
    requires 0 < n <= |lines|
    ensures var found := scan(lines[n - 1], n);
      ScanLines(scan, lines, n) == ScanLines(scan, lines, n - 1) + if found.Some? then [found.value] else []
  {
  }

  /** Each reported bookmark is what its line yields, with a 1-based line number. */
  lemma {:induction false} ScanLinesSound(scan: LineScanner, lines: seq<string>, n: nat)
    requires n <= |lines| && Numbers(scan)
    ensures AllYielded(scan, lines, n, ScanLines(scan, lines, n))
  {
    if n > 0 {
      ScanLinesSound(scan, lines, n - 1);
      var prev := ScanLines(scan, lines, n - 1);
      var r := ScanLines(scan, lines, n);
      var found := scan(lines[n - 1], n);
      ScanLinesStep(scan, lines, n);
      forall k | 0 <= k < |r|
        ensures 1 <= r[k].lineNumber <= n && scan(lines[r[k].lineNumber - 1], r[k].lineNumber) == Some(r[k])
      {
        if k < |prev| {
          assert r[k] == prev[k];
        } else {
          assert r[k] == found.value && found.value.lineNumber == n;
        }
      }
    }
  }

  /** Line numbers strictly increase, so each line yields at most one bookmark and they come in line order. */
  lemma {:induction false} ScanLinesOrdered(scan: LineScanner, lines: seq<string>, n: nat)
    requires n <= |lines| && Numbers(scan)
    ensures InLineOrder(ScanLines(scan, lines, n))
  {
    if n > 0 {
      ScanLinesOrdered(scan, lines, n - 1);
      ScanLinesSound(scan, lines, n - 1);
      var prev := ScanLines(scan, lines, n - 1);
      var r := ScanLines(scan, lines, n);
      var found := scan(lines[n - 1], n);
      ScanLinesStep(scan, lines, n);
      forall k, l | 0 <= k < l < |r|
        ensures r[k].lineNumber < r[l].lineNumber
      {
        assert r[k] == prev[k];
        if l < |prev| {
          assert r[l] == prev[l];
        } else {
          assert r[l] == found.value && found.value.lineNumber == n;
        }
      }
    }
  }

  /** Every line that yields a bookmark is reported. */
  lemma {:induction false} ScanLinesComplete(scan: LineScanner, lines: seq<string>, n: nat)
    requires n <= |lines| && Numbers(scan)
    ensures NoneMissed(scan, lines, n, ScanLines(scan, lines, n))
  {
    if n > 0 {
      ScanLinesComplete(scan, lines, n - 1);
      var prev := ScanLines(scan, lines, n - 1);
      var r := ScanLines(scan, lines, n);
      var found := scan(lines[n - 1], n);
      ScanLinesStep(scan, lines, n);
      forall i | 0 <= i < n && scan(lines[i], i + 1).Some?
        ensures exists k :: 0 <= k < |r| && r[k].lineNumber == i + 1
      {
        if i < n - 1 {
          var k :| 0 <= k < |prev| && prev[k].lineNumber == i + 1;
          assert r[k] == prev[k];
        } else {
          assert r[|prev|] == found.value && found.value.lineNumber == n;
        }
      }
    }
  }

  /** The file scanner numbers its bookmarks, and a line yields one exactly when it matches. */
  lemma {:induction false} FileScannerNumbers(filePath: string)
    ensures Numbers(FileScanner(filePath))
    ensures forall line, m :: FileScanner(filePath)(line, m).Some? <==> MatchLine(line).Some?
  {
  }

  /**
   * `scanFileForBookmarks` on a file's text: nothing unless it is a code file;
   * otherwise the bookmarks of its lines, split on `'\n'`.
   */
  method ScanFile(filePath: string, text: string) returns (r: seq<BookmarkComment>)
    ensures !IsCodeFile(filePath) ==> r == []
    ensures IsCodeFile(filePath) ==> r == ScanLines(FileScanner(filePath), Split(text, '\n'), |Split(text, '\n')|)
  {
    if !IsCodeFile(filePath) {
      return [];
    }
    r := ScanEachLine(FileScanner(filePath), Split(text, '\n'));
  }

  /** The loop of `scanFileForBookmarks`: one line at a time, line numbers from 1. */
  method ScanEachLine(scan: LineScanner, lines: seq<string>) returns (r: seq<BookmarkComment>)
    ensures r == ScanLines(scan, lines, |lines|)
  {
    r := [];
    var i := 0;
    while i < |lines|
      invariant 0 <= i <= |lines|
      invariant r == ScanLines(scan, lines, i)
    {
      var found := scan(lines[i], i + 1);
      if found.Some? {
        r := r + [found.value];
      }
      i := i + 1;
    }
  }

  // ---------------------------------------------------------------- bookmark to task

  /**
   * `hash.replace(/[^a-zA-Z0-9]/g, '_')`. The pattern works on UTF-16 code
   * units, so a character outside the Basic Multilingual Plane (two code
   * units) becomes two underscores.
   */
  function Sanitize(s: string): (r: string)
    ensures |r| >= |s|
    ensures forall k :: 0 <= k < |r| ==> IsWordChar(r[k])
  {
    if s == [] then []
    else
      var head := if IsAsciiAlnum(s[0]) then [s[0]] else if s[0] as int > 0xFFFF then "__" else "_";
      head + Sanitize(s[1..])
  }

  /** Sanitising works character by character. */
  lemma {:induction false} SanitizeAppend(a: string, b: string)
    ensures Sanitize(a + b) == Sanitize(a) + Sanitize(b)
    decreases |a|
  {
    if a == [] {
      assert a + b == b;
    } else {
      assert (a + b)[0] == a[0] && (a + b)[1..] == a[1..] + b;
      SanitizeAppend(a[1..], b);
    }
  }

  /** Text already made of letters, digits and underscores is left alone. */
  lemma {:induction false} SanitizeFixed(s: string)
    requires forall k :: 0 <= k < |s| ==> IsWordChar(s[k])
    ensures Sanitize(s) == s
    decreases |s|
  {
    if s != [] {
      SanitizeFixed(s[1..]);
      assert s == [s[0]] + s[1..];
    }
  }

  /**
   * Character by character: a letter or digit of ASCII is kept and anything
   * else in the Basic Multilingual Plane becomes one `_`, in place.
   */
  lemma {:induction false} SanitizeBmp(s: string)
    requires forall k :: 0 <= k < |s| ==> s[k] as int <= 0xFFFF
    ensures |Sanitize(s)| == |s|
    ensures forall k :: 0 <= k < |s| ==> Sanitize(s)[k] == if IsAsciiAlnum(s[k]) then s[k] else '_'
    decreases |s|
  {
    if s != [] {
      SanitizeBmp(s[1..]);
      var r := Sanitize(s);
      forall k | 0 <= k < |s| ensures r[k] == if IsAsciiAlnum(s[k]) then s[k] else '_' {
        if k > 0 {
          assert r[k] == Sanitize(s[1..])[k - 1] && s[1..][k - 1] == s[k];
        }
      }
    }
  }

  /** A character outside the Basic Multilingual Plane is two UTF-16 units, so two underscores. */
  lemma {:induction false} SanitizeAstral(c: char)
    requires c as int > 0xFFFF
    ensures Sanitize([c]) == "__"
  {
    assert !IsAsciiAlnum(c);
    assert [c][1..] == [];
  }

  /** Sanitising twice is sanitising once. */
  lemma {:induction false} SanitizeIdempotent(s: string)
    ensures Sanitize(Sanitize(s)) == Sanitize(s)
  {
    SanitizeFixed(Sanitize(s));
  }

  /** `generateBookmarkId`: `bookmark_` and the sanitised `path:line:TYPE`. */
  function BookmarkId(b: BookmarkComment): (r: string)
    ensures |r| > 9 && r[..9] == "bookmark_"
    ensures forall k :: 0 <= k < |r| ==> IsWordChar(r[k])
    ensures r == "bookmark_" + Sanitize(b.filePath + ":" + NumberToString(b.lineNumber) + ":" + TagName(b.kind))
  {
    var hash := b.filePath + ":" + NumberToString(b.lineNumber) + ":" + TagName(b.kind);
    "bookmark_" + Sanitize(hash)
  }

  /**
   * The id depends only on the sanitised path, the line and the type: two
   * files whose paths sanitise alike get the same id for the same line.
   */
  lemma {:induction false} BookmarkIdOfSanitizedPath(b: BookmarkComment, c: BookmarkComment)
    requires Sanitize(b.filePath) == Sanitize(c.filePath)
    requires b.lineNumber == c.lineNumber && b.kind == c.kind
    ensures BookmarkId(b) == BookmarkId(c)
  {
    var tail := ":" + NumberToString(b.lineNumber) + ":" + TagName(b.kind);
    assert b.filePath + ":" + NumberToString(b.lineNumber) + ":" + TagName(b.kind) == b.filePath + tail;
    assert c.filePath + ":" + NumberToString(c.lineNumber) + ":" + TagName(c.kind) == c.filePath + tail;
    SanitizeAppend(b.filePath, tail);
    SanitizeAppend(c.filePath, tail);
  }

  /**
   * For a line number that is not negative the id is `bookmark_`, the
   * sanitised path, `_`, the line's digits, `_` and the tag word.
   */
  lemma {:induction false} BookmarkIdParts(b: BookmarkComment)
    requires b.lineNumber >= 0
    ensures BookmarkId(b) == "bookmark_" + Sanitize(b.filePath) + "_" + NumberToString(b.lineNumber) + "_" + TagName(b.kind)
  {
    var p := b.filePath;
    var n := NumberToString(b.lineNumber);
    var t := TagName(b.kind);
    calc {
      BookmarkId(b);
      "bookmark_" + Sanitize(p + ":" + n + ":" + t);
      { assert p + ":" + n + ":" + t == p + (":" + n + ":" + t); }
      "bookmark_" + Sanitize(p + (":" + n + ":" + t));
      { SanitizeAppend(p, ":" + n + ":" + t); }
      "bookmark_" + (Sanitize(p) + Sanitize(":" + n + ":" + t));
      { SanitizeSuffix(n, t); }
      "bookmark_" + (Sanitize(p) + ("_" + n + "_" + t));
      "bookmark_" + Sanitize(p) + "_" + n + "_" + t;
    }
  }

  /** The `:line:TYPE` part of the hash sanitises to `_line_TYPE`. */
  lemma {:induction false} SanitizeSuffix(n: string, t: string)
    requires forall k :: 0 <= k < |n| ==> IsWordChar(n[k])
    requires forall k :: 0 <= k < |t| ==> IsWordChar(t[k])
    ensures Sanitize(":" + n + ":" + t) == "_" + n + "_" + t
  {
    calc {
      Sanitize(":" + n + ":" + t);
      { assert ":" + n + ":" + t == ":" + (n + (":" + t)); }
      Sanitize(":" + (n + (":" + t)));
      { SanitizeColonThen(n + (":" + t)); }
      "_" + Sanitize(n + (":" + t));
      { SanitizeAppend(n, ":" + t); }
      "_" + (Sanitize(n) + Sanitize(":" + t));
      { SanitizeColonThen(t); SanitizeFixed(n); SanitizeFixed(t); }
      "_" + (n + ("_" + t));
      "_" + n + "_" + t;
    }
  }

  /** A colon becomes an underscore in front of whatever follows it. */
  lemma {:induction false} SanitizeColonThen(x: string)
    ensures Sanitize(":" + x) == "_" + Sanitize(x)
  {
    assert (":" + x)[0] == ':' && (":" + x)[1..] == x;
  }

  /** `a-b.ts` and `a_b.ts` sanitise alike, so their bookmarks on the same line share an id. */
  lemma {:induction false} PunctuationCollides()
    ensures Sanitize("a-b.ts") == "a_b_ts" == Sanitize("a_b.ts")
  {
    SanitizeOfBTs();
    assert Sanitize("a-b.ts") == "a_b_ts" by {
      assert "a-b.ts"[1..] == "-b.ts" && "-b.ts"[1..] == "b.ts";
    }
    assert Sanitize("a_b.ts") == "a_b_ts" by {
      assert "a_b.ts"[1..] == "_b.ts" && "_b.ts"[1..] == "b.ts";
    }
  }

  /** The common tail of the two file names. */
  lemma {:induction false} SanitizeOfBTs()
    ensures Sanitize("b.ts") == "b_ts"
  {
    assert Sanitize(".ts") == "_ts" by {
      assert ".ts"[1..] == "ts" && "ts"[1..] == "s" && "s"[1..] == [];
    }
    assert "b.ts"[1..] == ".ts";
  }

  /** The task's name: `TYPE: content`, or `TYPE en fileName` when there is no content. */
  function TaskName(b: BookmarkComment): (r: string)
    ensures |TagName(b.kind)| < |r| && r[..|TagName(b.kind)|] == TagName(b.kind)
  {
    if b.content != [] then TagName(b.kind) + ": " + b.content
    else TagName(b.kind) + " en " + Basename(b.filePath)
  }

  /**
   * `createTaskFromBookmark`. The workspace-relative path shown in the
   * description and the creation time are parameters.
   */
  function CreateTaskFromBookmark(b: BookmarkComment, relativePath: string, now: int): (t: Task)
    ensures t.id == BookmarkId(b) && t.name == TaskName(b)
    ensures t.estimatedPomodoros == 1 && t.completedPomodoros == 0 && !t.isCompleted
    ensures t.isBookmark == Some(true) && t.filePath == Some(b.filePath) && t.lineNumber == Some(b.lineNumber)
    ensures t.createdAt == now && t.completedAt.None? && t.description.Some?
    ensures var d := t.description.value;
      var head := DescriptionHead(relativePath); var tail := DescriptionTail(b);
      |head| + |tail| <= |d| && d[..|head|] == head && d[|d| - |tail|..] == tail
  {
    var head, line, tail := DescriptionHead(relativePath), NumberToString(b.lineNumber), DescriptionTail(b);
    PartsOfThree(head + line + tail, head, line, tail);
    Task(BookmarkId(b), TaskName(b), Some(head + line + tail), 1, 0, false, now, None, Some(true), Some(b.filePath), Some(b.lineNumber))
  }

  /** The description opens with the file icon and the workspace-relative path, then a colon. */
  function DescriptionHead(relativePath: string): string
  {
    "\U{1F4C4} " + relativePath + ":"
  }

  /** The description closes with a new line, the speech-balloon icon and the whole source line. */
  function DescriptionTail(b: BookmarkComment): string
  {
    "\n\U{1F4AC} " + b.fullLine
  }

  /** Between the path and the source line, the description holds the line number, which `parseInt` reads back. */
  lemma {:induction false} DescriptionLineReadsBack(b: BookmarkComment, relativePath: string, now: int)
    ensures var d := CreateTaskFromBookmark(b, relativePath, now).description.value;
      var k := |DescriptionHead(relativePath)|;
      k <= |d| && ParseIntIn(d, k, |d|) == Some(b.lineNumber)
  {
    var d := CreateTaskFromBookmark(b, relativePath, now).description.value;
    var head, line, tail := DescriptionHead(relativePath), NumberToString(b.lineNumber), DescriptionTail(b);
    PartsOfThree(d, head, line, tail);
    assert d[|head| + |line|] == tail[0] == '\n';
    ParseIntOfNumberIn(d, |head|, |d|, b.lineNumber);
  }

  /** The name starts with the type, and a non-empty content can be read back after `TYPE: `. */
  lemma {:induction false} TaskNameReadsBack(b: BookmarkComment)
    ensures var n := TaskName(b); var k := |TagName(b.kind)|;
      k <= |n| && n[..k] == TagName(b.kind)
    ensures b.content != [] ==> TaskName(b)[|TagName(b.kind)|..|TagName(b.kind)| + 2] == ": "
    ensures b.content != [] ==> TaskName(b)[|TagName(b.kind)| + 2..] == b.content
    ensures b.content == [] ==> TaskName(b)[|TagName(b.kind)|..] == " en " + Basename(b.filePath)
  {
    var n, tag := TaskName(b), TagName(b.kind);
    if b.content != [] {
      PartsOfThree(n, tag, ": ", b.content);
    } else {
      PartsOfThree(n, tag, " en ", Basename(b.filePath));
    }
  }
}
