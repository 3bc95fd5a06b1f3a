/**
  The upload allow-list of app.py: `ALLOWED_EXTENSIONS` and `allowed_file`.

  `allowed_file(filename)` accepts a file name when it contains a '.' and the
  text after the LAST '.' (the second part of a right split at '.'), lower-cased,
  is one of the allowed extensions.
 */
module Upload {

  /** ALLOWED_EXTENSIONS: every extension an uploaded file may carry, all lower-case ASCII. */
  const AllowedExtensions: set<string> := {"txt", "pdf", "png", "jpg", "jpeg", "gif"}

  predicate IsUpperAscii(c: char) {
    'A' <= c <= 'Z'
  }

  /** Python's `str.lower` on one character, for the ASCII letters. */
  function LowerChar(c: char): char {
    if IsUpperAscii(c) then (c as int + 32) as char else c
  }

  /** Python's `str.lower`, character by character. */
  function Lower(s: string): (r: string)
    ensures |r| == |s|
    ensures forall i :: 0 <= i < |s| ==> r[i] == LowerChar(s[i])
  {
    if s == [] then [] else [LowerChar(s[0])] + Lower(s[1..])
  }

  /**
    Python's `s.rsplit(sep, 1)`: the whole string when `sep` does not occur,
    otherwise the text before and the text after the last occurrence of `sep`.
   */
  function RSplitOnce(s: string, sep: char): (parts: seq<string>)
    ensures sep !in s ==> parts == [s]
    ensures sep in s ==> |parts| == 2 && parts[0] + [sep] + parts[1] == s && sep !in parts[1]
    decreases |s|
  {
    if s == [] then [s]
    else if s[|s| - 1] == sep then [s[..|s| - 1], []]
    else
      var init := s[..|s| - 1];
      var parts := RSplitOnce(init, sep);
      assert s == init + [s[|s| - 1]];
      if |parts| == 1 then [s] else [parts[0], parts[1] + [s[|s| - 1]]]
  }

  /** allowed_file: the name has a '.' and its last extension, lower-cased, is allowed. */
  function AllowedFile(filename: string): (ok: bool)
    ensures ok ==> '.' in filename
  {
    '.' in filename && Lower(RSplitOnce(filename, '.')[1]) in AllowedExtensions
  }

  /** Position `i` of `filename` holds its last '.'. */
  ghost predicate IsLastDot(filename: string, i: int) {
    0 <= i < |filename| && filename[i] == '.' && '.' !in filename[i + 1..]
  }

  /**
    The allow-list stated independently of `rsplit`: the name has a last '.',
    and what follows it, lower-cased, is allowed.
   */
  ghost predicate HasAllowedExtension(filename: string) {
    exists i :: IsLastDot(filename, i) && Lower(filename[i + 1..]) in AllowedExtensions
  }

  /** Splitting at a '.' that no other '.' follows gives back exactly the two sides. */
  lemma {:induction false} RSplitAtLast(stem: string, ext: string, sep: char)
    requires sep !in ext
    ensures RSplitOnce(stem + [sep] + ext, sep) == [stem, ext]
  {
    var s := stem + [sep] + ext;
    assert s[|stem|] == sep;
    var parts := RSplitOnce(s, sep);
    // both |stem| and |parts[0]| are positions of sep with no sep after them
    assert forall j :: |stem| < j < |s| ==> s[j] == ext[j - |stem| - 1];
    assert forall j :: |parts[0]| < j < |s| ==> s[j] == parts[1][j - |parts[0]| - 1];
    assert s[|parts[0]|] == sep;
    assert |parts[0]| == |stem|;
    assert parts[1] == s[|s| - |ext|..] == ext;
    assert parts[0] == s[..|stem|] == stem;
  }

  /** At the last '.', allowed_file judges exactly the text after it. */
  lemma AllowedAtLastDot(filename: string, i: int)
    requires IsLastDot(filename, i)
    ensures AllowedFile(filename) <==> Lower(filename[i + 1..]) in AllowedExtensions
  {
    var stem, ext := filename[..i], filename[i + 1..];
    assert filename == stem + ['.'] + ext;
    RSplitAtLast(stem, ext, '.');
    assert '.' in filename by {
      assert filename[i] == '.';
    }
  }

  /** What allowed_file accepts has an allowed last extension. */
  lemma AllowedFileSound(filename: string)
    requires AllowedFile(filename)
    ensures HasAllowedExtension(filename)
  {
    var parts := RSplitOnce(filename, '.');
    var i := |parts[0]|;
    assert filename[i + 1..] == parts[1];
    assert IsLastDot(filename, i) && Lower(filename[i + 1..]) in AllowedExtensions;
  }

  /** A name with an allowed last extension is accepted by allowed_file. */
  lemma AllowedFileComplete(filename: string)
    requires HasAllowedExtension(filename)
    ensures AllowedFile(filename)
  {
    var i :| IsLastDot(filename, i) && Lower(filename[i + 1..]) in AllowedExtensions;
    AllowedAtLastDot(filename, i);
  }

  /** allowed_file agrees with the stated allow-list rule, in both directions. */
  lemma AllowedFileMeaning(filename: string)
    ensures AllowedFile(filename) <==> HasAllowedExtension(filename)
  {
    if AllowedFile(filename) {
      AllowedFileSound(filename);
    }
    if HasAllowedExtension(filename) {
      AllowedFileComplete(filename);
    }
  }

  /** Only the last extension counts: what precedes the last '.' never matters. */
  lemma OnlyLastExtensionCounts(stem: string, ext: string)
    requires '.' !in ext
    ensures AllowedFile(stem + "." + ext) <==> Lower(ext) in AllowedExtensions
  {
    RSplitAtLast(stem, ext, '.');
    assert '.' in stem + "." + ext by {
      assert (stem + "." + ext)[|stem|] == '.';
    }
  }

  /** Lower-casing keeps every '.' where it is and adds none. */
  lemma LowerKeepsDots(s: string)
    ensures ('.' in Lower(s)) <==> ('.' in s)
  {
    if '.' in s {
      var i :| 0 <= i < |s| && s[i] == '.';
      assert Lower(s)[i] == '.';
    }
    if '.' in Lower(s) {
      var i :| 0 <= i < |s| && Lower(s)[i] == '.';
      assert s[i] == '.';
    }
  }

  /** Lower-casing twice is lower-casing once. */
  lemma LowerIdempotent(s: string)
    ensures Lower(Lower(s)) == Lower(s)
  {
  }

  /** Lower-casing a suffix is taking the suffix of the lower-cased string. */
  lemma LowerSuffix(s: string, k: nat)
    requires k <= |s|
    ensures Lower(s)[k..] == Lower(s[k..])
  {
    assert forall j :: 0 <= j < |s| - k ==> Lower(s)[k..][j] == Lower(s[k..])[j];
  }

  /** The check ignores case: a name and its lower-cased form are judged alike. */
  lemma AllowedFileIgnoresCase(filename: string)
    ensures AllowedFile(Lower(filename)) == AllowedFile(filename)
  {
    var low := Lower(filename);
    LowerKeepsDots(filename);
    if '.' in filename {
      var parts := RSplitOnce(filename, '.');
      var i := |parts[0]|;
      var ext := filename[i + 1..];
      assert ext == parts[1];
      assert IsLastDot(filename, i);
      LowerSuffix(filename, i + 1);
      LowerKeepsDots(ext);
      assert IsLastDot(low, i);
      AllowedAtLastDot(filename, i);
      AllowedAtLastDot(low, i);
      LowerIdempotent(ext);
    }
  }

  /** Evaluation of `Lower` on the literals "png" and "PNG", used by the examples below. */
  lemma LowerPng()
    ensures Lower("png") == "png" && Lower("PNG") == "png"
  {
    assert LowerChar('p') == 'p' && LowerChar('n') == 'n' && LowerChar('g') == 'g';
    assert LowerChar('P') == 'p' && LowerChar('N') == 'n' && LowerChar('G') == 'g';
    assert Lower("png")[0] == 'p' && Lower("png")[1] == 'n' && Lower("png")[2] == 'g';
    assert Lower("PNG")[0] == 'p' && Lower("PNG")[1] == 'n' && Lower("PNG")[2] == 'g';
  }

  /** Evaluation of `Lower` on the literals "exe" and "EXE", used by the examples below. */
  lemma LowerExe()
    ensures Lower("exe") == "exe" && Lower("EXE") == "exe"
  {
    assert LowerChar('e') == 'e' && LowerChar('x') == 'x';
    assert LowerChar('E') == 'e' && LowerChar('X') == 'x';
    assert Lower("exe")[0] == 'e' && Lower("exe")[1] == 'x' && Lower("exe")[2] == 'e';
    assert Lower("EXE")[0] == 'e' && Lower("EXE")[1] == 'x' && Lower("EXE")[2] == 'e';
  }

  /** Only the last extension counts, and not its case: "a.b.png" and "a.PNG" are accepted. */
  lemma AcceptedExamples()
    ensures AllowedFile("a.b.png") && AllowedFile("a.PNG")
  {
    LowerPng();
    assert AllowedFile("a.b.png") by {
      assert "a.b.png" == "a.b" + "." + "png";
      OnlyLastExtensionCounts("a.b", "png");
    }
    assert "a.PNG" == "a" + "." + "PNG";
    OnlyLastExtensionCounts("a", "PNG");
  }

  /** An allowed extension followed by another one is judged by the last: "a.png.exe" is refused. */
  lemma RejectsHiddenExtension()
    ensures !AllowedFile("a.png.exe")
  {
    LowerExe();
    assert "a.png.exe" == "a.png" + "." + "exe";
    OnlyLastExtensionCounts("a.png", "exe");
  }

  /** A refused extension stays refused in upper case: "a.EXE" is refused. */
  lemma RejectsUpperCaseExe()
    ensures !AllowedFile("a.EXE")
  {
    LowerExe();
    assert "a.EXE" == "a" + "." + "EXE";
    OnlyLastExtensionCounts("a", "EXE");
  }

  /** A name without an extension, or with an empty one, is refused. */
  lemma RejectsMissingExtension()
    ensures !AllowedFile("noext") && !AllowedFile("a.")
  {
    assert "a." == "a" + "." + "";
    OnlyLastExtensionCounts("a", "");
    assert "noext" == ['n', 'o', 'e', 'x', 't'];
  }
}
