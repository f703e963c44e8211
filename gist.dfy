/**
 * The small GitHub gist client (Services/SimpleGist.cs): the escaping a request applies to a
 * file's content, the JSON body a request is sent as, and the URL read back from the response.
 * The HTTP exchange itself is not modelled; the response's status and text are parameters.
 */
module SimpleGist {
  import opened Wrappers
  import opened Strings
  import opened TextLines
  import opened HexFormat

  // ---------------------------------------------------------------------------------------
  // Escaping file contents

  /** The four characters `AddFile` escapes: carriage return, line feed, tab and double quote. */
  predicate IsEscaped(c: char)
  {
    c == '\r' || c == '\n' || c == '\t' || c == '"'
  }

  /** A backslash and a letter for the control characters, a backslash before the quote, the character itself otherwise. */
  function Escape(c: char): string
  {
    if c == '\r' then "\\r"
    else if c == '\n' then "\\n"
    else if c == '\t' then "\\t"
    else if c == '"' then "\\\""
    else [c]
  }

  /** Every character of `s` replaced by its escape. */
  function EscapeEach(s: string, escape: char -> string): string
  {
    if |s| == 0 then "" else escape(s[0]) + EscapeEach(s[1..], escape)
  }

  lemma {:induction false} EscapeEachSnoc(s: string, c: char, escape: char -> string)
    ensures EscapeEach(s + [c], escape) == EscapeEach(s, escape) + escape(c)
  {
    if |s| == 0 {
      assert s + [c] == [c];
    } else {
      assert (s + [c])[1..] == s[1..] + [c];
      EscapeEachSnoc(s[1..], c, escape);
    }
  }

  /** The content as `AddFile` stores it. */
  function Escaped(s: string): string
  {
    EscapeEach(s, Escape)
  }

  /** How many characters of `s` get escaped. */
  function CountEscaped(s: string): nat
  {
    if |s| == 0 then 0 else (if IsEscaped(s[0]) then 1 else 0) + CountEscaped(s[1..])
  }

  /** `content.IndexOfAny (new [] { '\r', '\n', '\t', '"' }) != -1`. */
  function HasEscaped(s: string): (b: bool)
    ensures b <==> exists i :: 0 <= i < |s| && IsEscaped(s[i])
  {
    exists i | 0 <= i < |s| :: IsEscaped(s[i])
  }

  /**
   * The stored content is one character longer per escaped character, holds no raw carriage
   * return, line feed or tab, and every double quote in it follows a backslash.
   */
  lemma {:induction false} EscapedSpec(s: string)
    ensures |Escaped(s)| == |s| + CountEscaped(s)
    ensures '\r' !in Escaped(s) && '\n' !in Escaped(s) && '\t' !in Escaped(s)
    ensures forall k :: 0 <= k < |Escaped(s)| && Escaped(s)[k] == '"' ==> k > 0 && Escaped(s)[k - 1] == '\\'
  {
    if |s| > 0 {
      EscapedSpec(s[1..]);
      var head, tail := Escape(s[0]), Escaped(s[1..]);
      assert Escaped(s) == head + tail;
      forall k | 0 <= k < |head + tail| && (head + tail)[k] == '"'
        ensures k > 0 && (head + tail)[k - 1] == '\\'
      {
        if k >= |head| {
          assert (head + tail)[k] == tail[k - |head|];
          if k > |head| {
            assert (head + tail)[k - 1] == tail[k - 1 - |head|];
          } else {
            assert false;
          }
        }
      }
    }
  }

  /** Content without any of the four characters is stored as it is. */
  lemma {:induction false} EscapedIdentity(s: string)
    requires !HasEscaped(s)
    ensures Escaped(s) == s
  {
    if |s| > 0 {
      assert !IsEscaped(s[0]);
      assert !HasEscaped(s[1..]) by {
        forall i | 0 <= i < |s[1..]| ensures !IsEscaped(s[1..][i]) {
          assert s[1..][i] == s[i + 1];
        }
      }
      EscapedIdentity(s[1..]);
    }
  }

  /** The escaping loop of `AddFile`, run only when some character needs it. */
  method EscapeContent(content: string) returns (r: string)
    ensures r == Escaped(content)
  {
    if HasEscaped(content) {
      var sb := "";
      for i := 0 to |content|
        invariant sb == Escaped(content[..i])
      {
        var c := content[i];
        EscapeEachSnoc(content[..i], c, Escape);
        assert content[..i + 1] == content[..i] + [c];
        if c == '\r' {
          sb := sb + "\\r";
        } else if c == '\n' {
          sb := sb + "\\n";
        } else if c == '\t' {
          sb := sb + "\\t";
        } else if c == '"' {
          sb := sb + "\\\"";
        } else {
          sb := sb + [c];
        }
      }
      assert content[..|content|] == content;
      r := sb;
    } else {
      EscapedIdentity(content);
      r := content;
    }
  }

  // ---------------------------------------------------------------------------------------
  // Reading a JSON string back

  /** The character a two-character escape stands for in a JSON string (section 7 of RFC 8259). */
  function EscapeMeaning(c: char): Option<char>
  {
    if c == '"' then Some('"')
    else if c == '\\' then Some('\\')
    else if c == '/' then Some('/')
    else if c == 'b' then Some(8 as char)
    else if c == 'f' then Some(12 as char)
    else if c == 'n' then Some('\n')
    else if c == 'r' then Some('\r')
    else if c == 't' then Some('\t')
    else None
  }

  function Prepend(c: char, rest: Option<string>): Option<string>
  {
    match rest
    case Some(t) => Some([c] + t)
    case None => None
  }

  /**
   * The text a JSON string's body stands for (section 7 of RFC 8259), or `None` when it is not a
   * string body: a raw double quote or a raw control character (below U+0020), a backslash that
   * starts no escape, or a `\u` escape whose four lowercase hex digits name a surrogate.
   */
  function Unescape(s: string): Option<string>
    decreases |s|
  {
    if |s| == 0 then Some("")
    else if s[0] == '"' || s[0] < ' ' then None
    else if s[0] != '\\' then Prepend(s[0], Unescape(s[1..]))
    else if |s| == 1 then None
    else if s[1] == 'u' then
      if |s| >= 6 && forall k | 2 <= k < 6 :: IsHexChar(s[k]) then
        var v := ParseHex(s[2..6]);
        if v < 0xD800 || (0xE000 <= v && v < 0x11_0000) then Prepend(v as char, Unescape(s[6..])) else None
      else None
    else
      match EscapeMeaning(s[1])
      case None => None
      case Some(c) => Prepend(c, Unescape(s[2..]))
  }

  /**
   * The characters `AddFile`'s escaping lets through readably: no backslash, and no control
   * character other than the three it escapes.
   */
  predicate StoredReadable(c: char)
  {
    c != '\\' && (' ' <= c || c == '\r' || c == '\n' || c == '\t')
  }

  lemma UnescapeStep(c: char, rest: string)
    requires StoredReadable(c)
    ensures Unescape(Escape(c) + rest) == Prepend(c, Unescape(rest))
  {
    var e := Escape(c) + rest;
    if IsEscaped(c) {
      assert e[0] == '\\' && e[1] != 'u' && e[2..] == rest;
    } else {
      assert e[0] == c && e[1..] == rest;
    }
  }

  /** Content without backslashes or other control characters reads back from the request exactly as it was given. */
  lemma {:induction false} EscapedReadsBack(s: string)
    requires forall i :: 0 <= i < |s| ==> StoredReadable(s[i])
    ensures Unescape(Escaped(s)) == Some(s)
  {
    if |s| > 0 {
      EscapedReadsBack(s[1..]);
      UnescapeStep(s[0], Escaped(s[1..]));
      assert [s[0]] + s[1..] == s;
    }
  }

  /**
   * Backslashes are not escaped: a line feed and the two characters backslash and 'n' are stored
   * alike, and so read back as a line feed; a lone backslash cannot be read back at all. Control
   * characters other than the three escaped ones are stored raw, which no JSON string may hold.
   */
  lemma EscapeCollision()
    ensures Escaped("\n") == Escaped("\\n") == "\\n"
    ensures Unescape(Escaped("\\n")) == Some("\n")
    ensures Unescape(Escaped("\\")) == None
    ensures Escaped([8 as char]) == [8 as char] && Unescape(Escaped([8 as char])) == None
  {
    assert Escaped("\\n") == Escape('\\') + Escape('n') + "" by {
      assert "\\n"[1..] == "n" && "n"[1..] == "";
    }
    assert Escaped("\n") == Escape('\n') + "";
    assert "\\n"[0] == '\\' && "\\n"[1] == 'n' && "\\n"[2..] == "";
    assert Unescape("\\n") == Prepend('\n', Unescape(""));
    assert Unescape("") == Some("") && ['\n'] + "" == "\n";
    assert Escaped("\\") == Escape('\\') + "";
    assert Escaped([8 as char]) == Escape(8 as char) + "" by {
      assert [8 as char][1..] == "";
    }
  }

  /**
   * The escape with the backslash and the remaining control characters added: the four of
   * `Escape` as before, a backslash as two, any other character below U+0020 as `\u` and four
   * hex digits.
   */
  function JsonEscape(c: char): string
  {
    if c == '\\' then "\\\\"
    else if c < ' ' && !IsEscaped(c) then "\\u" + Hex(c as int, 4)
    else Escape(c)
  }

  function JsonEscaped(s: string): string
  {
    EscapeEach(s, JsonEscape)
  }

  lemma JsonUnescapeStep(c: char, rest: string)
    ensures Unescape(JsonEscape(c) + rest) == Prepend(c, Unescape(rest))
  {
    var e := JsonEscape(c) + rest;
    if c == '\\' {
      assert e[0] == '\\' && e[1] == '\\' && e[2..] == rest;
    } else if c < ' ' && !IsEscaped(c) {
      var digits := Hex(c as int, 4);
      assert Pow16(4) == 65536 by {
        assert Pow16(2) == 256;
      }
      ParseHexOfHex(c as int, 4);
      HexDigits(c as int, 4);
      assert e[0] == '\\' && e[1] == 'u' && e[2..6] == digits && e[6..] == rest;
      assert forall k | 2 <= k < 6 :: IsHexChar(e[k]) by {
        forall k | 2 <= k < 6 ensures IsHexChar(e[k]) {
          assert e[k] == digits[k - 2];
        }
      }
    } else {
      UnescapeStep(c, rest);
    }
  }

  /**
   * With backslashes and every control character escaped, every content reads back exactly;
   * on content the original escaping already handles, nothing changes.
   */
  lemma {:induction false} JsonEscapedRoundTrip(s: string)
    ensures Unescape(JsonEscaped(s)) == Some(s)
    ensures (forall i :: 0 <= i < |s| ==> StoredReadable(s[i])) ==> JsonEscaped(s) == Escaped(s)
  {
    if |s| > 0 {
      JsonEscapedRoundTrip(s[1..]);
      JsonUnescapeStep(s[0], JsonEscaped(s[1..]));
      assert [s[0]] + s[1..] == s;
      if forall i :: 0 <= i < |s| ==> StoredReadable(s[i]) {
        assert forall i :: 0 <= i < |s[1..]| ==> StoredReadable(s[1..][i]) by {
          forall i | 0 <= i < |s[1..]| ensures StoredReadable(s[1..][i]) {
            assert s[1..][i] == s[i + 1];
          }
        }
        assert StoredReadable(s[0]);
      }
    }
  }

  // ---------------------------------------------------------------------------------------
  // The request

  class GistRequest {
    var description: Option<string>
    var isPublic: bool
    /** The file names and their stored contents, in the order they were added. */
    var files: seq<(string, string)>

    /** No name is used twice, as in the dictionary. */
    ghost predicate Valid()
      reads this
    {
      forall i, j :: 0 <= i < j < |files| ==> files[i].0 != files[j].0
    }

    ghost function Names(): set<string>
      reads this
    {
      set i | 0 <= i < |files| :: files[i].0
    }

    constructor ()
      ensures Valid() && description == None && !isPublic && files == []
    {
      description := None;
      isPublic := false;
      files := [];
    }

    /**
     * Stores the content escaped under `name`; a name already used is refused (the dictionary
     * throws) and `added` is then false with nothing changed.
     */
    method AddFile(name: string, content: string) returns (added: bool)
      requires Valid()
      modifies this
      ensures Valid() && description == old(description) && isPublic == old(isPublic)
      ensures added <==> name !in old(Names())
      ensures files == if added then old(files) + [(name, Escaped(content))] else old(files)
    {
      var stored := EscapeContent(content);
      added := !(exists i | 0 <= i < |files| :: files[i].0 == name);
      if added {
        files := files + [(name, stored)];
      }
    }
  }

  /** Every stored content is free of raw line breaks, so each sits on one line of the body. */
  lemma StoredUnbroken(content: string)
    ensures '\n' !in Escaped(content)
  {
    EscapedSpec(content);
  }

  // ---------------------------------------------------------------------------------------
  // The body `CreateAsync` posts

  function FileEntry(f: (string, string)): seq<string>
  {
    ["\t\t\"" + f.0 + "\": {", "\t\t\t\"content\": \"" + f.1 + "\"", "\t\t}"]
  }

  function FileLines(files: seq<(string, string)>): (ls: seq<string>)
    ensures |ls| == 3 * |files|
  {
    if |files| == 0 then [] else FileLines(files[..|files| - 1]) + FileEntry(files[|files| - 1])
  }

  /** The text of an optional string as `StringBuilder.Append` writes it: nothing for null. */
  function Text(s: Option<string>): string
  {
    s.GetOr("")
  }

  const PublicTrue := "\t\"public\": true,"
  const PublicFalse := "\t\"public\": false,"

  function HeadLines(description: Option<string>, isPublic: bool): seq<string>
  {
    ["{", "\t\"description\": \"" + Text(description) + "\",",
     if isPublic then PublicTrue else PublicFalse, "\t\"files\": {"]
  }

  /** The lines of the body: the description, the public flag, an entry per file, the closing braces. */
  function BodyLines(description: Option<string>, isPublic: bool, files: seq<(string, string)>): seq<string>
  {
    HeadLines(description, isPublic) + FileLines(files) + ["\t}", "}"]
  }

  lemma {:induction false} FileLinesAt(files: seq<(string, string)>, k: nat)
    requires k < |files|
    ensures FileLines(files)[3 * k..3 * k + 3] == FileEntry(files[k])
  {
    var n := |files|;
    if k < n - 1 {
      FileLinesAt(files[..n - 1], k);
      assert files[..n - 1][k] == files[k];
      assert FileLines(files)[3 * k..3 * k + 3] == FileLines(files[..n - 1])[3 * k..3 * k + 3];
    }
  }

  /**
   * The body has 6 + 3 * files lines; the public flag is the literal `true` or `false`, true
   * exactly for a public request; file `k` gives its name on line 4 + 3k and its content on the next.
   */
  lemma BodyLinesSpec(description: Option<string>, isPublic: bool, files: seq<(string, string)>)
    ensures
      var ls := BodyLines(description, isPublic, files);
      && |ls| == 6 + 3 * |files|
      && ls[0] == "{" && ls[|ls| - 2] == "\t}" && ls[|ls| - 1] == "}"
      && (ls[2] == PublicTrue || ls[2] == PublicFalse)
      && (ls[2] == PublicTrue <==> isPublic)
      && forall k :: 0 <= k < |files| ==>
           ls[4 + 3 * k] == "\t\t\"" + files[k].0 + "\": {"
           && ls[5 + 3 * k] == "\t\t\t\"content\": \"" + files[k].1 + "\""
  {
    var ls := BodyLines(description, isPublic, files);
    assert PublicTrue != PublicFalse by {
      assert PublicTrue[11] != PublicFalse[11];
    }
    forall k | 0 <= k < |files|
      ensures ls[4 + 3 * k] == "\t\t\"" + files[k].0 + "\": {"
      ensures ls[5 + 3 * k] == "\t\t\t\"content\": \"" + files[k].1 + "\""
    {
      FileLinesAt(files, k);
      assert ls[4 + 3 * k] == FileLines(files)[3 * k];
      assert ls[5 + 3 * k] == FileLines(files)[3 * k + 1];
    }
  }

  /** Read back line by line, a body whose description, names and contents hold no line break gives exactly its lines. */
  lemma BodySplit(description: Option<string>, isPublic: bool, files: seq<(string, string)>)
    requires '\n' !in Text(description)
    requires forall k :: 0 <= k < |files| ==> '\n' !in files[k].0 && '\n' !in files[k].1
    ensures Split(Lines(BodyLines(description, isPublic, files)), '\n') == BodyLines(description, isPublic, files) + [""]
  {
    var head := HeadLines(description, isPublic);
    assert '\n' !in PublicTrue && '\n' !in PublicFalse;
    assert Unbroken(head);
    forall k | 0 <= k < |files| ensures Unbroken(FileEntry(files[k])) {
    }
    FileLinesUnbroken(files);
    assert Unbroken(["\t}", "}"]);
    UnbrokenAppend(head, FileLines(files));
    UnbrokenAppend(head + FileLines(files), ["\t}", "}"]);
    LinesSplit(BodyLines(description, isPublic, files));
  }

  lemma {:induction false} FileLinesUnbroken(files: seq<(string, string)>)
    requires forall k :: 0 <= k < |files| ==> Unbroken(FileEntry(files[k]))
    ensures Unbroken(FileLines(files))
  {
    if |files| > 0 {
      FileLinesUnbroken(files[..|files| - 1]);
      UnbrokenAppend(FileLines(files[..|files| - 1]), FileEntry(files[|files| - 1]));
    }
  }

  /** `CreateAsync`'s string builder: the head, an entry per file in order, the closing braces. */
  method RequestBody(request: GistRequest) returns (body: string)
    ensures body == Lines(BodyLines(request.description, request.isPublic, request.files))
  {
    var files := request.files;
    var sb := AppendHead(request.description, request.isPublic);
    ghost var head := HeadLines(request.description, request.isPublic);
    assert head + FileLines(files[..0]) == head;
    for k := 0 to |files|
      invariant sb == Lines(head + FileLines(files[..k]))
    {
      sb := AppendEntry(sb, head + FileLines(files[..k]), files[k]);
      FileLinesSnoc(head, files, k);
    }
    assert files[..|files|] == files;
    body := AppendClose(sb, head + FileLines(files));
  }

  lemma FileLinesSnoc(head: seq<string>, files: seq<(string, string)>, k: nat)
    requires k < |files|
    ensures head + FileLines(files[..k + 1]) == head + FileLines(files[..k]) + FileEntry(files[k])
  {
    assert files[..k + 1][..k] == files[..k];
  }

  /** The closing braces of the files object and of the body. */
  method AppendClose(sb: string, ghost ls: seq<string>) returns (sb': string)
    requires sb == Lines(ls)
    ensures sb' == Lines(ls + ["\t}", "}"])
  {
    LinesSnoc(ls, "\t}");
    sb' := sb + "\t}" + "\n";
    LinesSnoc(ls + ["\t}"], "}");
    sb' := sb' + "}" + "\n";
    assert ls + ["\t}"] + ["}"] == ls + ["\t}", "}"];
  }

  /** The opening brace, the description, the public flag and the start of the files object. */
  method AppendHead(description: Option<string>, isPublic: bool) returns (sb: string)
    ensures sb == Lines(HeadLines(description, isPublic))
  {
    ghost var ls: seq<string> := [];
    sb := "";
    var line := "{";
    LinesSnoc(ls, line);
    sb, ls := sb + line + "\n", ls + [line];
    line := "\t\"description\": \"" + Text(description) + "\",";
    LinesSnoc(ls, line);
    sb, ls := sb + line + "\n", ls + [line];
    var flag := if isPublic then "true" else "false";
    line := "\t\"public\": " + flag + ",";
    assert line == if isPublic then PublicTrue else PublicFalse;
    LinesSnoc(ls, line);
    sb, ls := sb + line + "\n", ls + [line];
    line := "\t\"files\": {";
    LinesSnoc(ls, line);
    sb, ls := sb + line + "\n", ls + [line];
    assert ls == HeadLines(description, isPublic);
  }

  /** One file's entry: its name opening an object, its content, the closing brace. */
  method AppendEntry(sb: string, ghost ls: seq<string>, f: (string, string)) returns (sb': string)
    requires sb == Lines(ls)
    ensures sb' == Lines(ls + FileEntry(f))
  {
    var e := FileEntry(f);
    sb' := sb + ("\t\t\"" + f.0 + "\": {") + "\n";
    LinesSnoc(ls, e[0]);
    sb' := sb' + ("\t\t\t\"content\": \"" + f.1 + "\"") + "\n";
    LinesSnoc(ls + [e[0]], e[1]);
    sb' := sb' + "\t\t}" + "\n";
    LinesSnoc(ls + [e[0]] + [e[1]], e[2]);
    assert ls + [e[0]] + [e[1]] + [e[2]] == ls + e;
  }

  // ---------------------------------------------------------------------------------------
  // The response

  const Created := 201
  const BadRequest := 400
  const Unauthorized := 401
  const UnprocessableEntity := 422

  const HtmlUrlKey := "\"html_url\""
  const Wiki := "https://github.com/spouliot/SimpleGist/wiki#"

  datatype GistResponse = GistResponse(statusCode: int, url: string)

  /**
   * The text between the first two double quotes after the first `key` (and the character
   * right after it); `None` where the string operations would throw.
   */
  function QuotedAfter(content: string, key: string): (r: Option<string>)
    ensures r.Some? ==> '"' !in r.value
  {
    var first := IndexOfString(content, key, 0);
    var from := first + |key| + 1;
    if from > |content| then None
    else
      var start := IndexOfChar(content, '"', from);
      var end := IndexOfChar(content, '"', start + 1);
      if end < start + 1 then None
      else Some(content[start + 1..end])
  }

  /** The URL of the created gist: the quoted text after the first `"html_url"`. */
  function ResponseUrl(content: string): (r: Option<string>)
    ensures r.Some? ==> '"' !in r.value
  {
    QuotedAfter(content, HtmlUrlKey)
  }

  /** Where the key and the two quotes sit decides what is read back. */
  lemma QuotedAt(content: string, key: string, n: nat, start: nat, end: nat)
    requires OccursAt(content, key, n) && forall k :: 0 <= k < n ==> !OccursAt(content, key, k)
    requires n + |key| + 1 <= start < end < |content| && content[start] == '"' && content[end] == '"'
    requires forall k :: n + |key| + 1 <= k < start ==> content[k] != '"'
    requires forall k :: start + 1 <= k < end ==> content[k] != '"'
    ensures QuotedAfter(content, key) == Some(content[start + 1..end])
  {
    IndexOfStringAt(content, key, n);
    IndexOfCharAt(content, '"', n + |key| + 1, start);
    IndexOfCharAt(content, '"', start + 1, end);
  }

  /**
   * After the first `key`, a separator without quotes (such as ": ") and a quoted text, the
   * text read back is that one.
   */
  lemma QuotedAfterSpec(pre: string, key: string, sep: string, url: string, rest: string)
    requires |sep| >= 1 && '"' !in sep && '"' !in url
    requires forall k :: 0 <= k < |pre| ==> !OccursAt(pre + key + sep + "\"" + url + "\"" + rest, key, k)
    ensures QuotedAfter(pre + key + sep + "\"" + url + "\"" + rest, key) == Some(url)
  {
    var content := pre + key + sep + "\"" + url + "\"" + rest;
    var n := |pre|;
    assert content[n..n + |key|] == key;
    var start := n + |key| + |sep|;
    assert content[start] == '"';
    forall k | n + |key| + 1 <= k < start ensures content[k] != '"' {
      assert content[k] == sep[k - n - |key|];
    }
    var end := start + 1 + |url|;
    assert content[end] == '"';
    forall k | start + 1 <= k < end ensures content[k] != '"' {
      assert content[k] == url[k - start - 1];
    }
    assert content[start + 1..end] == url;
    QuotedAt(content, key, n, start, end);
  }

  /**
   * In a response that reads `"html_url"`, a separator without quotes (such as ": "), and a
   * quoted URL, with no earlier `"html_url"`, the URL read back is that one.
   */
  lemma ResponseUrlSpec(pre: string, sep: string, url: string, rest: string)
    requires |sep| >= 1 && '"' !in sep && '"' !in url
    requires forall k :: 0 <= k < |pre| ==> !OccursAt(pre + HtmlUrlKey + sep + "\"" + url + "\"" + rest, HtmlUrlKey, k)
    ensures ResponseUrl(pre + HtmlUrlKey + sep + "\"" + url + "\"" + rest) == Some(url)
  {
    QuotedAfterSpec(pre, HtmlUrlKey, sep, url, rest);
  }

  function StatusName(status: int): string
  {
    if status == BadRequest then "BadRequest"
    else if status == Unauthorized then "Unauthorized"
    else "UnprocessableEntity"
  }

  /** The `GistResponse` constructor; `None` where reading the URL would throw. */
  function NewResponse(status: int, content: string): (r: Option<GistResponse>)
    ensures r.Some? ==> r.value.statusCode == status
    ensures status == Created ==> (r.Some? <==> ResponseUrl(content).Some?)
    ensures status == Created && r.Some? ==> r.value.url == ResponseUrl(content).value
    ensures status != Created ==> r.Some? && |r.value.url| > |Wiki| && r.value.url[..|Wiki|] == Wiki
  {
    if status == Created then
      match ResponseUrl(content)
      case Some(u) => Some(GistResponse(status, u))
      case None => None
    else if status == BadRequest || status == Unauthorized || status == UnprocessableEntity then
      Some(GistResponse(status, Wiki + StatusName(status)))
    else
      Some(GistResponse(status, Wiki + "Errors"))
  }

  /** Only the three named statuses get their own wiki anchor; every other failure points at "Errors". */
  lemma StatusAnchors(status: int, content: string)
    requires status != Created
    ensures NewResponse(status, content).value.url == Wiki + "Errors"
            <==> status != BadRequest && status != Unauthorized && status != UnprocessableEntity
    ensures status == BadRequest ==> NewResponse(status, content).value.url == Wiki + "BadRequest"
    ensures status == Unauthorized ==> NewResponse(status, content).value.url == Wiki + "Unauthorized"
    ensures status == UnprocessableEntity ==> NewResponse(status, content).value.url == Wiki + "UnprocessableEntity"
  {
    var url := NewResponse(status, content).value.url;
    if status == BadRequest || status == Unauthorized || status == UnprocessableEntity {
      assert url[|Wiki|..] == StatusName(status);
      assert (Wiki + "Errors")[|Wiki|..] == "Errors";
    }
  }
}
