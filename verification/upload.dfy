/**
 * The upload filter of routes/books.js: a candidate image is accepted only when
 * the lower-cased extension of its original name and the mimetype the multipart
 * parser reports for it both
 * match the unanchored pattern `jpeg|jpg|png|gif|webp`.
 */
module Upload {

  /** What the multipart parser reports about an uploaded file before it is stored. */
  datatype Candidate = Candidate(originalname: string, mimetype: string)

  /**
   * A file part sent with an empty file name, as a browser does for an empty
   * file input, is skipped by the multipart parser: the request carries no upload.
   */
  predicate Skipped(c: Candidate) {
    c.originalname == ""
  }

  /** The alternatives of the pattern, in the order they are written. */
  const AllowedTypes: seq<string> := ["jpeg", "jpg", "png", "gif", "webp"]

  // ---------------------------------------------------------------------------
  // Unanchored matching: `p` occurs somewhere inside `s`.

  ghost predicate At(s: string, p: string, i: int) {
    0 <= i && i + |p| <= |s| && s[i..i + |p|] == p
  }

  ghost predicate Contains(s: string, p: string) {
    exists i :: At(s, p, i)
  }

  /** An occurrence in `s` is one at its head or one in its tail. */
  lemma Shift(s: string, p: string)
    requires |s| >= 1
    ensures Contains(s, p) <==> At(s, p, 0) || Contains(s[1..], p)
  {
    if Contains(s, p) && !At(s, p, 0) {
      var i :| At(s, p, i);
      assert s[1..][i - 1..i - 1 + |p|] == s[i..i + |p|];
      assert At(s[1..], p, i - 1);
    }
    if Contains(s[1..], p) {
      var i :| At(s[1..], p, i);
      assert s[1..][i..i + |p|] == s[i + 1..i + 1 + |p|];
      assert At(s, p, i + 1);
    }
  }

  /** A regular-expression test for one literal alternative. */
  function Occurs(p: string, s: string): (r: bool)
    ensures r <==> Contains(s, p)
    decreases |s|
  {
    if |s| < |p| then
      assert forall i :: !At(s, p, i);
      false
    else if s[..|p|] == p then
      assert At(s, p, 0);
      true
    else
      Shift(s, p);
      Occurs(p, s[1..])
  }

  /** The pattern `jpeg|jpg|png|gif|webp` tested against `s`, with no anchors. */
  function MatchesAllowed(s: string): (r: bool)
    ensures r <==> exists k :: 0 <= k < |AllowedTypes| && Contains(s, AllowedTypes[k])
  {
    assert AllowedTypes[0] == "jpeg" && AllowedTypes[1] == "jpg" && AllowedTypes[2] == "png";
    assert AllowedTypes[3] == "gif" && AllowedTypes[4] == "webp";
    Occurs("jpeg", s) || Occurs("jpg", s) || Occurs("png", s) || Occurs("gif", s) || Occurs("webp", s)
  }

  // ---------------------------------------------------------------------------
  // File names.

  /** Position of the last '.', or -1 when there is none. */
  function LastDot(s: string): (k: int)
    ensures -1 <= k < |s|
    ensures k == -1 ==> forall j :: 0 <= j < |s| ==> s[j] != '.'
    ensures k >= 0 ==> s[k] == '.' && forall j :: k < j < |s| ==> s[j] != '.'
  {
    if |s| == 0 then -1
    else if s[|s| - 1] == '.' then |s| - 1
    else LastDot(s[..|s| - 1])
  }

  /**
   * The extension of a bare file name, as path.extname computes it: from the
   * last '.' to the end, but empty when there is no '.', when the only '.'
   * is the first character (".png") and for "..".
   */
  function ExtName(name: string): (e: string)
    ensures e != "" ==>
      e[0] == '.' && |e| < |name| && name[|name| - |e|..] == e &&
      forall j :: 0 < j < |e| ==> e[j] != '.'
    ensures e == "" ==> name == ".." || forall j :: 0 < j < |name| ==> name[j] != '.'
    ensures name == ".." ==> e == ""
  {
    var k := LastDot(name);
    if k <= 0 || name == ".." then "" else name[k..]
  }

  /** The extension starts at the last '.' when that '.' is not the first character. */
  lemma ExtNameAt(name: string, k: int)
    requires 0 < k < |name| && name[k] == '.' && name != ".."
    requires forall j :: k < j < |name| ==> name[j] != '.'
    ensures ExtName(name) == name[k..]
  {
  }

  /** ASCII lower-casing of one character. */
  function LowerChar(c: char): char {
    if 'A' <= c <= 'Z' then (c as int - 'A' as int + 'a' as int) as char else c
  }

  /** String lower-casing: no upper-case letter is left, everything else is kept. */
  function Lower(s: string): (r: string)
    ensures |r| == |s|
    ensures forall i :: 0 <= i < |s| ==> r[i] == LowerChar(s[i])
    ensures forall i :: 0 <= i < |r| ==> !('A' <= r[i] <= 'Z')
  {
    seq(|s|, i requires 0 <= i < |s| => LowerChar(s[i]))
  }

  // ---------------------------------------------------------------------------
  // The filter.

  /** The fileFilter decision: both the extension (lower-cased) and the mimetype (as given to the filter) must match. */
  function Accepts(c: Candidate): (r: bool)
    ensures r <==>
      (exists k :: 0 <= k < |AllowedTypes| && Contains(Lower(ExtName(c.originalname)), AllowedTypes[k])) &&
      (exists k :: 0 <= k < |AllowedTypes| && Contains(c.mimetype, AllowedTypes[k]))
  {
    var extOk := MatchesAllowed(Lower(ExtName(c.originalname)));
    var mimeOk := MatchesAllowed(c.mimetype);
    mimeOk && extOk
  }

  /** Every alternative is at least three lower-case letters long. */
  lemma AllowedShape(k: int)
    requires 0 <= k < |AllowedTypes|
    ensures |AllowedTypes[k]| >= 3
    ensures forall j :: 0 <= j < |AllowedTypes[k]| ==> 'a' <= AllowedTypes[k][j] <= 'z'
  {
  }

  /**
   * An accepted file has a real extension: its name holds a '.' after the
   * first character, so "png" and ".png" are both refused.
   */
  lemma AcceptedHasExtension(c: Candidate)
    requires Accepts(c)
    ensures exists j :: 0 < j < |c.originalname| && c.originalname[j] == '.'
  {
    var e := ExtName(c.originalname);
    var k :| 0 <= k < |AllowedTypes| && Contains(Lower(e), AllowedTypes[k]);
    AllowedShape(k);
    var i :| At(Lower(e), AllowedTypes[k], i);
    assert e != "";
    var j := |c.originalname| - |e|;
    assert c.originalname[j] == e[0];
  }

  /**
   * The filter does not lower-case the mimetype it is given: a candidate whose
   * mimetype has no lower-case letter, such as "IMAGE/PNG", is refused by the
   * filter whatever the file is called.
   */
  lemma UpperCaseMimetypeRefused(c: Candidate)
    requires forall i :: 0 <= i < |c.mimetype| ==> !('a' <= c.mimetype[i] <= 'z')
    ensures !Accepts(c)
  {
    if MatchesAllowed(c.mimetype) {
      var i := MatchHasInitial(c.mimetype);
      assert false;
    }
  }

  /** The extension's case does not matter: renaming "x.png" to "x.PNG" keeps the verdict. */
  lemma ExtensionCaseIgnored(c: Candidate, d: Candidate)
    requires c.mimetype == d.mimetype
    requires Lower(ExtName(c.originalname)) == Lower(ExtName(d.originalname))
    ensures Accepts(c) == Accepts(d)
  {
  }

  /** A name whose only '.' leads it has no extension: ".png" is refused. */
  lemma DotFileRefused(mimetype: string)
    ensures !Accepts(Candidate(".png", mimetype))
  {
    if Accepts(Candidate(".png", mimetype)) {
      AcceptedHasExtension(Candidate(".png", mimetype));
      assert false;
    }
  }

  /** A text ends with itself at the offset of what precedes it. */
  lemma AtEnd(a: string, p: string)
    ensures At(a + p, p, |a|)
  {
    assert (a + p)[|a|..|a| + |p|] == p;
  }

  /** An upper-case extension is accepted. */
  lemma UpperCaseExtensionAccepted()
    ensures Accepts(Candidate("cover.PNG", "image/png"))
  {
    ExtNameAt("cover.PNG", 5);
    assert Lower(".PNG") == ".png";
    assert ".png"[1..4] == "png";
    assert At(".png", "png", 1);
    AtEnd("image/", "png");
    assert "image/" + "png" == "image/png";
  }

  /** The pattern is unanchored: "jpg" anywhere in the extension and "gif" anywhere in the mimetype pass. */
  lemma UnanchoredMatchAccepted()
    ensures Accepts(Candidate("scan.jpgz", "text/gifts"))
  {
    ExtNameAt("scan.jpgz", 4);
    assert Lower(".jpgz") == ".jpgz";
    assert ".jpgz"[1..4] == "jpg";
    assert At(".jpgz", "jpg", 1);
    assert "text/gifts"[5..8] == "gif";
    assert At("text/gifts", "gif", 5);
  }

  /** Every alternative starts with one of 'j', 'p', 'g', 'w'. */
  lemma AllowedInitials(k: int)
    requires 0 <= k < |AllowedTypes|
    ensures AllowedTypes[k] != [] && AllowedTypes[k][0] in "jpgw"
  {
  }

  /** A match puts one of the letters 'j', 'p', 'g', 'w' somewhere in the string. */
  lemma MatchHasInitial(s: string) returns (i: int)
    requires MatchesAllowed(s)
    ensures 0 <= i < |s| && s[i] in "jpgw"
  {
    var k :| 0 <= k < |AllowedTypes| && Contains(s, AllowedTypes[k]);
    AllowedInitials(k);
    i :| At(s, AllowedTypes[k], i);
    assert s[i] == s[i..i + |AllowedTypes[k]|][0];
  }

  /** A string without any of the letters 'j', 'p', 'g', 'w' does not match the pattern. */
  lemma NoInitialNoMatch(s: string)
    requires forall i :: 0 <= i < |s| ==> s[i] !in "jpgw"
    ensures !MatchesAllowed(s)
  {
    if MatchesAllowed(s) {
      var i := MatchHasInitial(s);
      assert false;
    }
  }

  /** A text file is refused, whatever mimetype it claims. */
  lemma TextFileRefused(mimetype: string)
    ensures !Accepts(Candidate("notes.txt", mimetype))
  {
    ExtNameAt("notes.txt", 5);
    assert Lower(".txt") == ".txt";
    NoInitialNoMatch(".txt");
  }
}
