/** The pure parts of the Gemini adapter (service/gemini_service.go): the
    image-format check of an upload's file name, and the text prompt that asks
    for a note to be analysed. The calls to the generative model are outside
    the model; where the adapter hands a prompt to the model, the model's
    answer is a parameter. */
module Gemini {
  import opened Wrappers
  import opened Notes

  // ---------------------------------------------------------------------
  // File extensions, as Go's path/filepath.Ext and strings.ToLower

  /** No '.' and no path separator ('/') anywhere in `s`. */
  predicate NoDotOrSeparator(s: string)
  {
    forall i :: 0 <= i < |s| ==> s[i] != '.' && s[i] != '/'
  }

  /** Some '/' follows position `i` of `path`. */
  ghost predicate SeparatorAfter(path: string, i: int)
  {
    exists j :: 0 <= j < |path| && i < j && path[j] == '/'
  }

  /** filepath.Ext: the suffix of `path` that starts at the last '.' of its
      last element, or "" when that element has no '.' (ExtIsLastDotSuffix). */
  function Ext(path: string): (ext: string)
    ensures |ext| <= |path| && ext == path[|path| - |ext|..]
  {
    if path == [] then []
    else
      var c := path[|path| - 1];
      if c == '/' then []
      else if c == '.' then ['.']
      else
        var ext := Ext(path[..|path| - 1]);
        if ext == [] then [] else ext + [c]
  }

  /** Ext finds the last dot of the last path element: what it returns is
      empty or a dot followed by neither dots nor separators, and it is empty
      only when every dot of the path is followed by a separator. */
  lemma {:induction false} ExtIsLastDotSuffix(path: string)
    ensures Ext(path) != [] ==> Ext(path)[0] == '.' && NoDotOrSeparator(Ext(path)[1..])
    ensures Ext(path) == [] ==>
      forall i :: 0 <= i < |path| && path[i] == '.' ==> SeparatorAfter(path, i)
  {
    if path != [] {
      var n := |path| - 1;
      var c, prefix := path[n], path[..n];
      ExtIsLastDotSuffix(prefix);
      var e := Ext(prefix);
      if c == '/' {
        forall i | 0 <= i < |path| && path[i] == '.' ensures SeparatorAfter(path, i) {
          assert i < n && path[n] == '/';
        }
      } else if c != '.' && e == [] {
        forall i | 0 <= i < |path| && path[i] == '.' ensures SeparatorAfter(path, i) {
          assert prefix[i] == '.';
          var j :| 0 <= j < |prefix| && i < j && prefix[j] == '/';
          assert path[j] == '/';
        }
      } else if c != '.' {
        assert (e + [c])[1..] == e[1..] + [c];
      }
    }
  }

  /** ASCII lower case of a character. */
  function LowerChar(c: char): char
  {
    if 'A' <= c <= 'Z' then (c as int + 32) as char else c
  }

  /** strings.ToLower, restricted to ASCII letters. */
  function ToLower(s: string): (r: string)
    ensures |r| == |s|
  {
    if s == [] then [] else ToLower(s[..|s| - 1]) + [LowerChar(s[|s| - 1])]
  }

  /** ToLower works character by character. */
  lemma {:induction false} ToLowerAt(s: string)
    ensures forall i :: 0 <= i < |s| ==> ToLower(s)[i] == LowerChar(s[i])
  {
    if s != [] {
      ToLowerAt(s[..|s| - 1]);
    }
  }

  // ---------------------------------------------------------------------
  // detectImageFormat and the check HandleRequest makes with it

  /** detectImageFormat: "jpeg" for a .jpg or .jpeg file, "png" for a .png
      file, in any letter case, and "" for anything else. */
  function DetectImageFormat(filename: string): (format: string)
    ensures format == "jpeg" || format == "png" || format == ""
  {
    FormatOfExtension(ToLower(Ext(filename)))
  }

  /** The switch of detectImageFormat over a lower-cased extension. */
  function FormatOfExtension(ext: string): (format: string)
    ensures format == "jpeg" <==> ext == ".jpg" || ext == ".jpeg"
    ensures format == "png" <==> ext == ".png"
    ensures format == "" <==> ext !in {".jpg", ".jpeg", ".png"}
  {
    if ext == ".jpg" || ext == ".jpeg" then "jpeg"
    else if ext == ".png" then "png"
    else ""
  }

  /** The format check of HandleRequest: generation goes ahead, with both
      formats, only when both uploaded files have a supported extension;
      otherwise the request is answered with 400 Bad Request. */
  function CheckImageFormats(filename1: string, filename2: string): (r: Result<(string, string), int>)
    ensures r.Success? <==> DetectImageFormat(filename1) != "" && DetectImageFormat(filename2) != ""
    ensures r.Success? ==>
      && r.value == (DetectImageFormat(filename1), DetectImageFormat(filename2))
      && r.value.0 in {"jpeg", "png"} && r.value.1 in {"jpeg", "png"}
    ensures r.Failure? ==> r.error == 400
  {
    var format1 := DetectImageFormat(filename1);
    var format2 := DetectImageFormat(filename2);
    if format1 == "" || format2 == "" then Failure(400) else Success((format1, format2))
  }

  // ---------------------------------------------------------------------
  // Properties of the format detection

  /** The extension is decided by the last dot alone: whatever precedes a
      final ".xyz" (with no further dot or separator), Ext is ".xyz". */
  lemma ExtOfSuffix(base: string, ext: string)
    requires |ext| > 0 && ext[0] == '.' && NoDotOrSeparator(ext[1..])
    ensures Ext(base + ext) == ext
  {
    var path := base + ext;
    var e := Ext(path);
    ExtIsLastDotSuffix(path);
    assert path[|base|] == '.';
    if e == [] {
      assert false;
    }
    if |e| > |ext| {
      assert false;
    }
    if |e| < |ext| {
      assert false;
    }
  }

  /** Lower-casing a path lower-cases its extension: '.' and '/' are not
      letters, so they stay where they are. */
  lemma {:induction false} ExtOfLower(path: string)
    ensures Ext(ToLower(path)) == ToLower(Ext(path))
  {
    if path != [] {
      var n := |path| - 1;
      var c := path[n];
      var lower := ToLower(path);
      assert lower == ToLower(path[..n]) + [LowerChar(c)];
      assert lower[..n] == ToLower(path[..n]);
      LowerCharKeepsPunctuation(c);
      ExtOfLower(path[..n]);
      if c != '/' && c != '.' {
        var e := Ext(path[..n]);
        if e != [] {
          assert (e + [c])[..|e|] == e;
        }
      }
    }
  }

  /** Lower-casing leaves '.' and '/' where they are and creates no new ones. */
  lemma LowerCharKeepsPunctuation(c: char)
    ensures LowerChar(c) == '.' <==> c == '.'
    ensures LowerChar(c) == '/' <==> c == '/'
  {
  }

  /** Lower-casing twice is lower-casing once. */
  lemma ToLowerIdempotent(s: string)
    ensures ToLower(ToLower(s)) == ToLower(s)
  {
  }

  /** detectImageFormat ignores letter case in the whole file name. */
  lemma DetectIgnoresCase(filename: string)
    ensures DetectImageFormat(ToLower(filename)) == DetectImageFormat(filename)
  {
    var ext := Ext(filename);
    ExtOfLower(filename);
    ToLowerIdempotent(ext);
    assert ToLower(Ext(ToLower(filename))) == ToLower(ext);
    assert DetectImageFormat(ToLower(filename)) == FormatOfExtension(ToLower(ext));
  }

  /** Any name ending in .jpg or .jpeg, in any letter case, is "jpeg";
      any name ending in .png is "png", whatever comes before the last dot. */
  lemma DetectBySuffix(base: string, ext: string)
    requires |ext| > 0 && ext[0] == '.' && NoDotOrSeparator(ext[1..])
    ensures ToLower(ext) in {".jpg", ".jpeg"} ==> DetectImageFormat(base + ext) == "jpeg"
    ensures ToLower(ext) == ".png" ==> DetectImageFormat(base + ext) == "png"
    ensures ToLower(ext) !in {".jpg", ".jpeg", ".png"} ==> DetectImageFormat(base + ext) == ""
  {
    ExtOfSuffix(base, ext);
  }

  /** A file name without any dot has no format. */
  lemma NoDotNoFormat(filename: string)
    requires forall i :: 0 <= i < |filename| ==> filename[i] != '.'
    ensures DetectImageFormat(filename) == ""
  {
    ExtIsLastDotSuffix(filename);
    if Ext(filename) != [] {
      assert false;
    }
  }

  /** Only the last element of a path counts: a directory name with a dot
      in it gives the file no extension. */
  lemma {:induction false} ExtOfLastElement(dir: string, name: string)
    ensures Ext(dir + "/" + name) == Ext(name)
  {
    var path := dir + "/" + name;
    if name == [] {
      assert path[|path| - 1] == '/';
    } else {
      var n := |name| - 1;
      assert path[..|path| - 1] == dir + "/" + name[..n];
      assert path[|path| - 1] == name[n];
      ExtOfLastElement(dir, name[..n]);
    }
  }

  /** Worked cases: an upper-case extension. */
  lemma DetectUpperCase()
    ensures DetectImageFormat("A.PNG") == "png"
  {
    assert "A.PNG" == "A" + ".PNG";
    ExtOfSuffix("A", ".PNG");
    ToLowerAt(".PNG");
  }

  /** Worked cases: of two extensions only the last one counts. */
  lemma DetectDoubleExtension()
    ensures DetectImageFormat("x.png.jpg") == "jpeg"
    ensures DetectImageFormat("x.jpg.txt") == ""
  {
    assert "x.png.jpg" == "x.png" + ".jpg";
    ExtOfSuffix("x.png", ".jpg");
    ToLowerAt(".jpg");
    assert "x.jpg.txt" == "x.jpg" + ".txt";
    ExtOfSuffix("x.jpg", ".txt");
    ToLowerAt(".txt");
  }

  /** Worked cases: no dot at all, and a dot only in a directory name. */
  lemma DetectWithoutExtension()
    ensures DetectImageFormat("photo") == ""
    ensures DetectImageFormat("dir.png/photo") == ""
  {
    NoDotNoFormat("photo");
    assert "dir.png/photo" == "dir.png" + "/" + "photo";
    ExtOfLastElement("dir.png", "photo");
  }

  // ---------------------------------------------------------------------
  // The analysis prompt of AnalyzeNoteContentAndImage

  const RequestLabel := "Analyze the content and image of the following note. Request: "
  const ContentLabel := "\nContent: "
  const ImageLabel := "\nImage URL: "

  /** The prompt text: the request, then the note's content, then its image
      path, each after its label. */
  function AnalysisPrompt(requestText: string, note: Note): (prompt: string)
    ensures |prompt| == |RequestLabel| + |requestText| + |ContentLabel| + |note.content|
                        + |ImageLabel| + |note.img|
    ensures prompt[..|RequestLabel|] == RequestLabel
    ensures prompt[|prompt| - |note.img|..] == note.img
  {
    RequestLabel + requestText + ContentLabel + note.content + ImageLabel + note.img
  }

  /** The prompt depends on the note's content and image path only: the
      title, the id and the timestamps are not sent. */
  lemma PromptIgnoresTitle(requestText: string, a: Note, b: Note)
    requires a.content == b.content && a.img == b.img
    ensures AnalysisPrompt(requestText, a) == AnalysisPrompt(requestText, b)
  {
  }

  /** The text before the first line break of `s` and the text after that
      line break; all of `s` and "" when it has none. */
  function FirstLine(s: string): (r: (string, string))
    ensures |r.0| <= |s|
    ensures '\n' !in r.0
    ensures r.0 == s[..|r.0|]
    ensures |r.0| < |s| ==> s[|r.0|] == '\n' && r.1 == s[|r.0| + 1..]
    ensures |r.0| == |s| ==> r.1 == []
  {
    if s == [] then ([], [])
    else if s[0] == '\n' then ([], s[1..])
    else
      var rest := FirstLine(s[1..]);
      ([s[0]] + rest.0, rest.1)
  }

  /** What follows `tag` at the start of `s`, if `s` starts with it. */
  function AfterLabel(tag: string, s: string): (r: Option<string>)
    ensures r.Some? ==> s == tag + r.value
  {
    if |tag| <= |s| && s[..|tag|] == tag then Some(s[|tag|..]) else None
  }

  /** AfterLabel takes off exactly the tag that was put in front. */
  lemma AfterLabelOf(tag: string, body: string)
    ensures AfterLabel(tag, tag + body) == Some(body)
  {
    assert (tag + body)[..|tag|] == tag;
    assert (tag + body)[|tag|..] == body;
  }

  /** Read request text, content and image path back out of a prompt. */
  function ParsePrompt(prompt: string): Option<(string, string, string)>
  {
    match AfterLabel(RequestLabel, prompt)
    case None => None
    case Some(afterRequestLabel) =>
      var (requestText, rest) := FirstLine(afterRequestLabel);
      match ParsePromptBody(rest)
      case None => None
      case Some((content, img)) => Some((requestText, content, img))
  }

  /** Read content and image path back out of what follows the request line. */
  function ParsePromptBody(body: string): Option<(string, string)>
  {
    match AfterLabel(ContentLabel[1..], body)
    case None => None
    case Some(afterContentLabel) =>
      var (content, rest) := FirstLine(afterContentLabel);
      match AfterLabel(ImageLabel[1..], rest)
      case None => None
      case Some(img) => Some((content, img))
  }

  /** The body of a prompt gives back a one-line content and the image path. */
  lemma ParsePromptBodyOf(content: string, img: string)
    requires '\n' !in content
    ensures ParsePromptBody(ContentLabel[1..] + content + "\n" + ImageLabel[1..] + img) == Some((content, img))
  {
    var afterContent, afterImage := ContentLabel[1..], ImageLabel[1..];
    var y := afterImage + img;
    assert afterContent + content + "\n" + afterImage + img == afterContent + (content + "\n" + y);
    AfterLabelOf(afterContent, content + "\n" + y);
    FirstLineOf(content, y);
    AfterLabelOf(afterImage, img);
  }

  /** When neither the request nor the content spans several lines, the
      prompt determines all three of request, content and image path. */
  lemma ParseAnalysisPrompt(requestText: string, note: Note)
    requires '\n' !in requestText && '\n' !in note.content
    ensures ParsePrompt(AnalysisPrompt(requestText, note)) == Some((requestText, note.content, note.img))
  {
    var x := ContentLabel[1..] + note.content + "\n" + ImageLabel[1..] + note.img;
    assert ContentLabel == "\n" + ContentLabel[1..] && ImageLabel == "\n" + ImageLabel[1..];
    assert AnalysisPrompt(requestText, note) == RequestLabel + (requestText + "\n" + x);
    AfterLabelOf(RequestLabel, requestText + "\n" + x);
    FirstLineOf(requestText, x);
    ParsePromptBodyOf(note.content, note.img);
  }

  /** FirstLine splits at the line break that ends a one-line prefix. */
  lemma {:induction false} FirstLineOf(line: string, rest: string)
    requires '\n' !in line
    ensures FirstLine(line + "\n" + rest) == (line, rest)
  {
    if line != [] {
      var s := line + "\n" + rest;
      assert s[0] == line[0] && line[0] in line;
      assert s[1..] == line[1..] + "\n" + rest;
      FirstLineOf(line[1..], rest);
      assert [line[0]] + line[1..] == line;
    } else {
      assert line + "\n" + rest == "\n" + rest;
    }
  }

  /** AnalyzeNoteContentAndImage: hand the prompt to the model. `generate`
      stands for the model call and the JSON encoding of its answer. What the
      model is asked depends on the request, the content and the image path
      alone: a note that differs in any other field gets the same answer. */
  function AnalyzeNoteContentAndImage(note: Note, requestText: string,
                                      generate: string -> Result<string, string>)
    : (r: Result<string, string>)
    ensures r == generate(AnalysisPrompt(requestText, Note(0, note.img, "", note.content, ZeroTime, None)))
  {
    generate(AnalysisPrompt(requestText, note))
  }
}
