/** The upload allow-list: a file name is accepted when it contains a dot and the
    text after its last dot, lower-cased, is one of eight fixed extensions. */
module Extensions {

  /** The extensions an upload may carry. */
  const AllowedExtensions: set<string> := {"txt", "pdf", "png", "jpg", "jpeg", "gif", "doc", "docx"}

  /** Lower-cases an ASCII capital letter; every other character is left as it is. */
  function LowerChar(c: char): char
  {
    if 'A' <= c <= 'Z' then (c as int + 32) as char else c
  }

  /** Character-by-character lower-casing of a string. */
  function Lower(s: string): (r: string)
    ensures |r| == |s|
    ensures forall i :: 0 <= i < |s| ==> r[i] == LowerChar(s[i])
  {
    if s == [] then [] else [LowerChar(s[0])] + Lower(s[1..])
  }

  /** The index of the last '.' in `s`, or -1 when `s` has none. */
  function LastDot(s: string): (r: int)
    ensures -1 <= r < |s|
    ensures r >= 0 ==> s[r] == '.'
    ensures forall k :: r < k < |s| ==> s[k] != '.'
  {
    if s == [] then -1
    else if s[|s| - 1] == '.' then |s| - 1
    else LastDot(s[..|s| - 1])
  }

  /** The second part of splitting `s` once from the right at '.': the text after the last dot. */
  function AfterLastDot(s: string): (r: string)
    requires '.' in s
    ensures '.' !in r
    ensures |r| < |s|
  {
    s[LastDot(s) + 1..]
  }

  /** The allow-list check applied to an uploaded file's client-supplied name. */
  predicate AllowedFile(filename: string)
  {
    '.' in filename && Lower(AfterLastDot(filename)) in AllowedExtensions
  }

  /** Where `s` is split: for any `p` and dot-free `e`, the last dot of `p + "." + e` sits at `|p|`. */
  lemma {:induction false} LastDotOfSplit(p: string, e: string)
    requires '.' !in e
    ensures LastDot(p + "." + e) == |p|
  {
    var s := p + "." + e;
    assert s[|p|] == '.';
    forall k | |p| < k < |s|
      ensures s[k] != '.'
    {
      assert s[k] == e[k - |p| - 1];
    }
  }

  /** The suffix looked at is exactly the text after the last dot, whatever precedes it. */
  lemma SuffixOfSplit(p: string, e: string)
    requires '.' !in e
    ensures AfterLastDot(p + "." + e) == e
  {
    LastDotOfSplit(p, e);
    assert (p + "." + e)[|p| + 1..] == e;
  }

  /** `p + "." + e` is accepted exactly when the dot-free `e`, lower-cased, is allowed. */
  lemma AllowedFileOfSplit(p: string, e: string)
    requires '.' !in e
    ensures AllowedFile(p + "." + e) <==> Lower(e) in AllowedExtensions
  {
    SuffixOfSplit(p, e);
    assert (p + "." + e)[|p|] == '.';
  }

  /** A name without a dot is never accepted. */
  lemma NoDotRejected(filename: string)
    requires '.' !in filename
    ensures !AllowedFile(filename)
  {
  }

  /** An independent statement of the check: the name splits as `p + "." + e` with a
      dot-free `e` whose lower-cased form is on the list. */
  lemma AllowedFileCharacterization(filename: string)
    ensures AllowedFile(filename) <==>
      exists p, e :: filename == p + "." + e && '.' !in e && Lower(e) in AllowedExtensions
  {
    if AllowedFile(filename) {
      var k := LastDot(filename);
      var p, e := filename[..k], filename[k + 1..];
      assert filename == p + "." + e;
      assert '.' !in e && Lower(e) in AllowedExtensions;
    }
    if exists p, e :: filename == p + "." + e && '.' !in e && Lower(e) in AllowedExtensions {
      var p, e :| filename == p + "." + e && '.' !in e && Lower(e) in AllowedExtensions;
      AllowedFileOfSplit(p, e);
    }
  }

  /** Only the part after the last dot counts, and case does not. */
  lemma TarPdfAccepted()
    ensures AllowedFile("a.tar.PDF")
  {
    assert "a.tar" + "." + "PDF" == "a.tar.PDF";
    AllowedFileOfSplit("a.tar", "PDF");
    assert Lower("PDF") == "pdf";
  }

  /** A permitted extension followed by another one is judged by the last. */
  lemma PdfExeRejected()
    ensures !AllowedFile("x.pdf.exe")
  {
    assert "x.pdf" + "." + "exe" == "x.pdf.exe";
    AllowedFileOfSplit("x.pdf", "exe");
    assert Lower("exe") == "exe";
  }

  /** A name that is only a dot and an extension is accepted; a trailing dot is not. */
  lemma EdgeNames()
    ensures AllowedFile(".txt")
    ensures !AllowedFile("notes.")
  {
    assert "" + "." + "txt" == ".txt";
    AllowedFileOfSplit("", "txt");
    assert Lower("txt") == "txt";
    assert "notes" + "." + "" == "notes.";
    AllowedFileOfSplit("notes", "");
  }

  /** Lower-casing keeps a dot a dot and makes nothing else one. */
  lemma {:induction false} LowerKeepsDots(s: string, i: int)
    requires 0 <= i < |s|
    ensures Lower(s)[i] == '.' <==> s[i] == '.'
  {
  }

  /** Lower-casing commutes with taking a suffix. */
  lemma {:induction false} LowerOfSuffix(s: string, k: nat)
    requires k <= |s|
    ensures Lower(s[k..]) == Lower(s)[k..]
  {
    var l, t := Lower(s[k..]), Lower(s)[k..];
    assert |l| == |t|;
    forall i | 0 <= i < |l|
      ensures l[i] == t[i]
    {
      assert s[k..][i] == s[k + i];
    }
  }

  /** Two names that agree up to ASCII case have their last dot at the same place. */
  lemma {:induction false} LastDotIgnoresCase(m: string, n: string)
    requires Lower(m) == Lower(n)
    ensures LastDot(m) == LastDot(n)
  {
    var a, b := LastDot(m), LastDot(n);
    if a < b {
      LowerKeepsDots(n, b);
      LowerKeepsDots(m, b);
    } else if b < a {
      LowerKeepsDots(m, a);
      LowerKeepsDots(n, a);
    }
  }

  /** The check is case-insensitive: names that agree up to ASCII case get the same verdict. */
  lemma AllowedFileIgnoresCase(m: string, n: string)
    requires Lower(m) == Lower(n)
    ensures AllowedFile(m) <==> AllowedFile(n)
  {
    LastDotIgnoresCase(m, n);
    var k := LastDot(m);
    if k >= 0 {
      LowerKeepsDots(m, k);
      LowerKeepsDots(n, k);
      LowerOfSuffix(m, k + 1);
      LowerOfSuffix(n, k + 1);
    } else {
      assert '.' !in m && '.' !in n;
    }
  }

  /** Lower-casing is idempotent. */
  lemma {:induction false} LowerIdempotent(s: string)
    ensures Lower(Lower(s)) == Lower(s)
  {
    assert forall i :: 0 <= i < |s| ==> Lower(Lower(s))[i] == Lower(s)[i];
  }

  /** Lower-casing a name never changes the verdict. */
  lemma AllowedFileOfLower(filename: string)
    ensures AllowedFile(Lower(filename)) <==> AllowedFile(filename)
  {
    LowerIdempotent(filename);
    AllowedFileIgnoresCase(Lower(filename), filename);
  }
}
