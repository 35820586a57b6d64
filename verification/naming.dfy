/**
 * Where an accepted upload is kept and how the record refers to it: multer's
 * `filename` callback names the file "book-<stamp>-<suffix><ext>", and the
 * record stores "/uploads/books/" followed by that name.
 */
module Naming {
  import opened Wrappers
  import Upload

  /** The public mount of the upload directory, as the records refer to it. */
  const UploadPrefix: string := "/uploads/books/"

  /** The reference a record stores for a file multer saved under `filename`. */
  function ImageRef(filename: string): (ref: string)
    ensures |ref| == |UploadPrefix| + |filename| && ref[..|UploadPrefix|] == UploadPrefix
    ensures ref[|UploadPrefix|..] == filename
  {
    UploadPrefix + filename
  }

  // ---------------------------------------------------------------------------
  // Decimal rendering of a non-negative integer (JavaScript's number-to-string
  // for the integers a clock and `Math.round(Math.random() * 1E9)` produce).

  predicate IsDigit(c: char) {
    '0' <= c <= '9'
  }

  predicate AllDigits(s: string) {
    forall i :: 0 <= i < |s| ==> IsDigit(s[i])
  }

  function DigitChar(d: nat): (c: char)
    requires d < 10
    ensures IsDigit(c)
  {
    ('0' as int + d) as char
  }

  function DigitValue(c: char): (d: nat)
    requires IsDigit(c)
    ensures d < 10
  {
    c as int - '0' as int
  }

  /** The shortest decimal numeral of `n`. */
  function Decimal(n: nat): (s: string)
    ensures |s| >= 1 && AllDigits(s)
    ensures |s| > 1 ==> s[0] != '0'
  {
    if n < 10 then [DigitChar(n)] else Decimal(n / 10) + [DigitChar(n % 10)]
  }

  /** The number a string of digits denotes. */
  function Value(ds: string): nat
    requires AllDigits(ds)
  {
    if ds == [] then 0 else 10 * Value(ds[..|ds| - 1]) + DigitValue(ds[|ds| - 1])
  }

  /** Reading a numeral back gives the number that was written. */
  lemma {:induction false} ValueOfDecimal(n: nat)
    ensures Value(Decimal(n)) == n
  {
    var s := Decimal(n);
    if n >= 10 {
      ValueOfDecimal(n / 10);
      assert s[..|s| - 1] == Decimal(n / 10);
    }
  }

  /** Length of the run of digits at the head of `s`. */
  function DigitRun(s: string): (k: nat)
    ensures k <= |s|
    ensures forall i :: 0 <= i < k ==> IsDigit(s[i])
    ensures k < |s| ==> !IsDigit(s[k])
  {
    if s == [] || !IsDigit(s[0]) then 0 else 1 + DigitRun(s[1..])
  }

  /** A numeral followed by a non-digit reads up to that non-digit and no further. */
  lemma DigitRunOfNumeral(ds: string, rest: string)
    requires AllDigits(ds)
    requires rest == [] || !IsDigit(rest[0])
    ensures DigitRun(ds + rest) == |ds|
  {
    var s := ds + rest;
    if rest != [] {
      assert s[|ds|] == rest[0];
    }
    var k := DigitRun(s);
    if k < |ds| {
      assert false;
    } else if k > |ds| {
      assert false;
    }
  }

  /** Splits the leading natural number off `s`. */
  function ParseNat(s: string): Option<(nat, string)> {
    var k := DigitRun(s);
    if k == 0 then None else Some((Value(s[..k]), s[k..]))
  }

  lemma ParseDecimal(n: nat, rest: string)
    requires rest == [] || !IsDigit(rest[0])
    ensures ParseNat(Decimal(n) + rest) == Some((n, rest))
  {
    var ds := Decimal(n);
    DigitRunOfNumeral(ds, rest);
    assert (ds + rest)[..|ds|] == ds;
    assert AllDigits((ds + rest)[..|ds|]);
    assert (ds + rest)[|ds|..] == rest;
    ValueOfDecimal(n);
  }

  // ---------------------------------------------------------------------------
  // The stored name.

  const NamePrefix: string := "book-"

  /** multer's `filename` callback: "book-" + stamp + "-" + suffix + the original extension. */
  function StoredName(stamp: nat, suffix: nat, originalname: string): (r: string)
    ensures |r| > |NamePrefix| + |Upload.ExtName(originalname)|
    ensures r[..|NamePrefix|] == NamePrefix
    ensures r[|r| - |Upload.ExtName(originalname)|..] == Upload.ExtName(originalname)
    ensures forall j :: 0 <= j < |r| - |Upload.ExtName(originalname)| ==> r[j] != '.'
  {
    var stem := NamePrefix + Decimal(stamp) + "-" + Decimal(suffix);
    assert forall j :: 0 <= j < |stem| ==> stem[j] != '.' by {
      forall j | 0 <= j < |stem|
        ensures stem[j] != '.'
      {
        if |NamePrefix| <= j < |NamePrefix| + |Decimal(stamp)| {
          assert IsDigit(Decimal(stamp)[j - |NamePrefix|]);
        } else if |NamePrefix| + |Decimal(stamp)| + 1 <= j {
          assert IsDigit(Decimal(suffix)[j - |NamePrefix| - |Decimal(stamp)| - 1]);
        }
      }
    }
    stem + Upload.ExtName(originalname)
  }

  /** The parts a stored name is made of. */
  datatype NameParts = NameParts(stamp: nat, suffix: nat, ext: string)

  /** Reads a stored name back into its parts; the inverse of `StoredName`. */
  function ParseStoredName(name: string): Option<NameParts> {
    if |name| < |NamePrefix| || name[..|NamePrefix|] != NamePrefix then None
    else
      match ParseNat(name[|NamePrefix|..])
      case None => None
      case Some((stamp, rest)) =>
        match ParseDashNat(rest)
        case None => None
        case Some((suffix, ext)) => Some(NameParts(stamp, suffix, ext))
  }

  /** Reads "-" followed by a natural number. */
  function ParseDashNat(s: string): Option<(nat, string)> {
    if s == [] || s[0] != '-' then None else ParseNat(s[1..])
  }

  lemma ParseDashDecimal(n: nat, rest: string)
    requires rest == [] || !IsDigit(rest[0])
    ensures ParseDashNat("-" + Decimal(n) + rest) == Some((n, rest))
  {
    assert ("-" + Decimal(n) + rest)[1..] == Decimal(n) + rest;
    ParseDecimal(n, rest);
  }

  /** The naming scheme can be read back: a stored name determines its stamp, suffix and extension. */
  lemma StoredNameRoundTrip(stamp: nat, suffix: nat, originalname: string)
    ensures ParseStoredName(StoredName(stamp, suffix, originalname))
         == Some(NameParts(stamp, suffix, Upload.ExtName(originalname)))
  {
    var ext := Upload.ExtName(originalname);
    var tail := "-" + Decimal(suffix) + ext;
    var name := StoredName(stamp, suffix, originalname);
    assert name == NamePrefix + (Decimal(stamp) + tail);
    assert name[..|NamePrefix|] == NamePrefix;
    assert name[|NamePrefix|..] == Decimal(stamp) + tail;
    ParseDecimal(stamp, tail);
    ParseDashDecimal(suffix, ext);
  }

  /** Two uploads get the same file name only with the same stamp, suffix and extension. */
  lemma StoredNameInjective(s1: nat, r1: nat, n1: string, s2: nat, r2: nat, n2: string)
    requires StoredName(s1, r1, n1) == StoredName(s2, r2, n2)
    ensures s1 == s2 && r1 == r2 && Upload.ExtName(n1) == Upload.ExtName(n2)
  {
    StoredNameRoundTrip(s1, r1, n1);
    StoredNameRoundTrip(s2, r2, n2);
  }

  /** Every image reference of an upload has the prefix, "book-", the two numbers and the extension. */
  lemma ImageRefShape(stamp: nat, suffix: nat, originalname: string)
    ensures ImageRef(StoredName(stamp, suffix, originalname))
         == "/uploads/books/book-" + Decimal(stamp) + "-" + Decimal(suffix) + Upload.ExtName(originalname)
  {
    var stem := NamePrefix + Decimal(stamp) + "-" + Decimal(suffix);
    var ext := Upload.ExtName(originalname);
    assert StoredName(stamp, suffix, originalname) == stem + ext;
    assert UploadPrefix + NamePrefix == "/uploads/books/book-";
    calc {
      ImageRef(stem + ext);
      UploadPrefix + (stem + ext);
      (UploadPrefix + NamePrefix) + Decimal(stamp) + "-" + Decimal(suffix) + ext;
    }
  }
}
