/** The PHP string functions the core relies on, over `seq<char>` (PHP strings are byte strings). */
module Strings {
  import opened Wrappers

  /** PHP truthiness of a string: only "" and "0" are falsy. */
  predicate Truthy(s: string)
  {
    s != "" && s != "0"
  }

  /** PHP truthiness of a nullable string. */
  predicate TruthyOpt(s: Option<string>)
  {
    s.Some? && Truthy(s.value)
  }

  /** `explode(d, s)` for a one-character delimiter. */
  function Split(s: string, d: char): (parts: seq<string>)
    ensures |parts| >= 1
    decreases |s|
  {
    if |s| == 0 then [""]
    else if s[0] == d then [""] + Split(s[1..], d)
    else
      var rest := Split(s[1..], d);
      [[s[0]] + rest[0]] + rest[1..]
  }

  /** `implode(d, parts)` for a one-character glue. */
  function Join(parts: seq<string>, d: char): string
    decreases |parts|
  {
    if |parts| == 0 then ""
    else if |parts| == 1 then parts[0]
    else parts[0] + [d] + Join(parts[1..], d)
  }

  /** `implode(glue, parts)` for an arbitrary glue string. */
  function Implode(glue: string, parts: seq<string>): string
    decreases |parts|
  {
    if |parts| == 0 then ""
    else if |parts| == 1 then parts[0]
    else parts[0] + glue + Implode(glue, parts[1..])
  }

  /** A string without the delimiter splits into itself alone. */
  lemma {:induction false} SplitNoDelimiter(s: string, d: char)
    requires d !in s
    ensures Split(s, d) == [s]
    decreases |s|
  {
    if |s| > 0 {
      assert d !in s[1..];
      SplitNoDelimiter(s[1..], d);
      assert [s[0]] + s[1..] == s;
    }
  }

  /** Splitting at the first delimiter: the first part is the text before it. */
  lemma {:induction false} SplitFirst(a: string, d: char, b: string)
    requires d !in a
    ensures Split(a + [d] + b, d) == [a] + Split(b, d)
    decreases |a|
  {
    var s := a + [d] + b;
    if |a| == 0 {
      assert s == [d] + b;
      assert s[1..] == b;
    } else {
      assert s[0] == a[0];
      assert s[1..] == a[1..] + [d] + b;
      assert d !in a[1..];
      SplitFirst(a[1..], d, b);
      assert [a[0]] + a[1..] == a;
    }
  }

  /** After the last delimiter: the last part is the text after it. */
  lemma {:induction false} SplitLast(a: string, d: char, b: string)
    requires d !in b
    ensures |Split(a + [d] + b, d)| >= 2
    ensures Split(a + [d] + b, d)[|Split(a + [d] + b, d)| - 1] == b
    decreases |a|
  {
    var s := a + [d] + b;
    if |a| == 0 {
      assert s == [d] + b;
      assert s[1..] == b;
      SplitNoDelimiter(b, d);
    } else {
      assert s[1..] == a[1..] + [d] + b;
      SplitLast(a[1..], d, b);
    }
  }

  /** No part produced by `explode` contains the delimiter. */
  lemma {:induction false} SplitPartsFree(s: string, d: char)
    ensures forall i :: 0 <= i < |Split(s, d)| ==> d !in Split(s, d)[i]
    decreases |s|
  {
    if |s| > 0 {
      SplitPartsFree(s[1..], d);
    }
  }

  /** `implode` undoes `explode`. */
  lemma {:induction false} JoinSplit(s: string, d: char)
    ensures Join(Split(s, d), d) == s
    decreases |s|
  {
    if |s| == 0 {
    } else if s[0] == d {
      JoinSplit(s[1..], d);
      var rest := Split(s[1..], d);
      var parts := [""] + rest;
      assert parts[1..] == rest;
      assert Join(parts, d) == "" + [d] + Join(rest, d);
      assert [d] + s[1..] == s;
    } else {
      JoinSplit(s[1..], d);
      var rest := Split(s[1..], d);
      var parts := [[s[0]] + rest[0]] + rest[1..];
      assert parts[1..] == rest[1..];
      if |rest| == 1 {
        assert Join(parts, d) == [s[0]] + rest[0];
        assert Join(rest, d) == rest[0];
      } else {
        assert Join(rest, d) == rest[0] + [d] + Join(rest[1..], d);
        assert Join(parts, d) == [s[0]] + rest[0] + [d] + Join(rest[1..], d);
      }
      assert [s[0]] + s[1..] == s;
    }
  }

  /** `needle` occurs in `s` at offset `k`. */
  predicate OccursAt(s: string, needle: string, k: nat)
  {
    k + |needle| <= |s| && s[k..k + |needle|] == needle
  }

  /** `strpos($s, $needle)`: the first offset at which `needle` occurs, or None. */
  function Find(s: string, needle: string): (r: Option<nat>)
    ensures r.Some? ==> OccursAt(s, needle, r.value)
    ensures r.Some? ==> forall k: nat :: k < r.value ==> !OccursAt(s, needle, k)
    ensures r.None? ==> forall k: nat :: !OccursAt(s, needle, k)
    decreases |s|
  {
    if needle <= s then Some(0)
    else if |s| == 0 then None
    else
      var rest := Find(s[1..], needle);
      ShiftOccurs(s, needle);
      match rest
      case None => None
      case Some(k) => Some(k + 1)
  }

  /** An occurrence past the first character of `s` is an occurrence in `s[1..]`, one offset earlier. */
  lemma ShiftOccurs(s: string, needle: string)
    requires |s| > 0
    ensures forall k: nat :: k > 0 ==> (OccursAt(s, needle, k) <==> OccursAt(s[1..], needle, k - 1))
  {
    forall k: nat | k > 0
      ensures OccursAt(s, needle, k) <==> OccursAt(s[1..], needle, k - 1)
    {
      if k + |needle| <= |s| {
        assert s[1..][k - 1..k - 1 + |needle|] == s[k..k + |needle|];
      }
    }
  }

  /** A needle whose first character does not occur in `a` is found right after `a`. */
  lemma FindAfter(a: string, needle: string, b: string)
    requires |needle| > 0 && needle[0] !in a
    ensures Find(a + needle + b, needle) == Some(|a|)
  {
    var s := a + needle + b;
    assert s[|a|..|a| + |needle|] == needle;
    assert OccursAt(s, needle, |a|);
    forall k: nat | k < |a|
      ensures !OccursAt(s, needle, k)
    {
      if k + |needle| <= |s| {
        assert s[k..k + |needle|][0] == a[k];
      }
    }
    var r := Find(s, needle);
    assert r.Some?;
    assert !(r.value < |a|) && !(|a| < r.value);
  }

  /** `strstr($s, $needle, true)`: the part of `s` before the first `needle`, or None (PHP false). */
  function Before(s: string, needle: string): (r: Option<string>)
    ensures r.Some? <==> Find(s, needle).Some?
    ensures r.Some? ==> r.value + needle <= s
  {
    match Find(s, needle)
    case None => None
    case Some(k) =>
      assert s[..k] + needle == s[..k + |needle|];
      Some(s[..k])
  }

  /** `strstr` of such a needle yields exactly the text before it. */
  lemma BeforeAfter(a: string, needle: string, b: string)
    requires |needle| > 0 && needle[0] !in a
    ensures Before(a + needle + b, needle) == Some(a)
  {
    FindAfter(a, needle, b);
    assert (a + needle + b)[..|a|] == a;
  }

  /** Characters PHP's `trim` removes by default: space, tab, LF, CR, NUL, vertical tab. */
  predicate IsBlank(c: char)
  {
    c == ' ' || c == '\t' || c == '\n' || c == '\r' || c == '\0' || c == '\U{000B}'
  }

  function TrimLeft(s: string): (r: string)
    ensures |r| == 0 || !IsBlank(r[0])
    decreases |s|
  {
    if |s| > 0 && IsBlank(s[0]) then TrimLeft(s[1..]) else s
  }

  function TrimRight(s: string): (r: string)
    ensures |r| == 0 || !IsBlank(r[|r| - 1])
    decreases |s|
  {
    if |s| > 0 && IsBlank(s[|s| - 1]) then TrimRight(s[..|s| - 1]) else s
  }

  /** PHP's `trim`. */
  function Trim(s: string): string
  {
    TrimRight(TrimLeft(s))
  }

  /** `trim` leaves a string without blanks alone. */
  lemma TrimNoBlanks(s: string)
    requires forall i :: 0 <= i < |s| ==> !IsBlank(s[i])
    ensures Trim(s) == s
  {
    assert TrimLeft(s) == s;
    if |s| > 0 {
      assert !IsBlank(s[|s| - 1]);
    }
  }

  /** The characters `filter_var($s, FILTER_SANITIZE_URL)` keeps: letters, digits and the
      punctuation of URLs, which together are every printable ASCII character but the space. */
  predicate IsUrlChar(c: char)
  {
    '!' <= c <= '~'
  }

  /** No URL character is blank. */
  lemma UrlCharsNotBlank(s: string)
    requires forall i :: 0 <= i < |s| ==> IsUrlChar(s[i])
    ensures forall i :: 0 <= i < |s| ==> !IsBlank(s[i])
  {
    forall i | 0 <= i < |s|
      ensures !IsBlank(s[i])
    {
      assert IsUrlChar(s[i]);
    }
  }

  /** `strpos` of a character the string does not contain is false. */
  lemma FindMissing(s: string, c: char)
    requires c !in s
    ensures Find(s, [c]).None?
  {
    forall k: nat
      ensures !OccursAt(s, [c], k)
    {
      if k + 1 <= |s| {
        assert s[k..k + 1] == [s[k]];
      }
    }
  }

  /** `filter_var($s, FILTER_SANITIZE_URL)`: removes every character that is not a URL character. */
  function SanitizeUrl(s: string): (r: string)
    ensures forall i :: 0 <= i < |r| ==> IsUrlChar(r[i])
    ensures |r| <= |s|
    ensures (forall i :: 0 <= i < |s| ==> IsUrlChar(s[i])) ==> r == s
    decreases |s|
  {
    if |s| == 0 then ""
    else if IsUrlChar(s[0]) then [s[0]] + SanitizeUrl(s[1..])
    else SanitizeUrl(s[1..])
  }

  /** Drops trailing slashes. */
  function StripTrailingSlashes(s: string): (r: string)
    ensures r <= s
    ensures |r| == 0 || r[|r| - 1] != '/'
    decreases |s|
  {
    if |s| > 0 && s[|s| - 1] == '/' then StripTrailingSlashes(s[..|s| - 1]) else s
  }

  /** PHP's `basename`: the last path component, ignoring trailing slashes. */
  function Basename(path: string): string
  {
    var parts := Split(StripTrailingSlashes(path), '/');
    parts[|parts| - 1]
  }

  /** A basename never contains `/`. */
  lemma BasenameHasNoSlash(path: string)
    ensures '/' !in Basename(path)
  {
    SplitPartsFree(StripTrailingSlashes(path), '/');
  }

  /** `SplFileInfo::getPath`: the pathname without its last component and the `/` before it,
      or "" when there is no `/`. */
  function Dirname(path: string): (r: string)
    ensures '/' !in path ==> r == ""
  {
    var parts := Split(path, '/');
    SplitNoDelimiterOnly(path, '/');
    Join(parts[..|parts| - 1], '/')
  }

  /** The decimal digit for `d`. */
  function DigitChar(d: nat): char
    requires d < 10
  {
    "0123456789"[d]
  }

  /** `sprintf('%d', n)` for a non-negative integer. */
  function Decimal(n: nat): (r: string)
    ensures |r| >= 1
    ensures n >= 10 ==> |r| >= 2
    decreases n
  {
    if n < 10 then [DigitChar(n)] else Decimal(n / 10) + [DigitChar(n % 10)]
  }

  /** A printed number is made of digits only. */
  lemma {:induction false} DecimalDigits(n: nat)
    ensures forall i :: 0 <= i < |Decimal(n)| ==> '0' <= Decimal(n)[i] <= '9'
    decreases n
  {
    if n >= 10 {
      DecimalDigits(n / 10);
    }
  }

  /** A positive number prints truthy: it is neither empty nor "0". */
  lemma DecimalTruthy(n: nat)
    requires n > 0
    ensures Truthy(Decimal(n))
  {
    if n < 10 {
      assert Decimal(n)[0] == "0123456789"[n];
      assert "0123456789"[n] != '0';
    }
  }

  /** Different numbers print differently. */
  lemma {:induction false} DecimalInjective(a: nat, b: nat)
    requires Decimal(a) == Decimal(b)
    ensures a == b
    decreases a
  {
    var da, db := Decimal(a), Decimal(b);
    if a < 10 && b < 10 {
      assert da[0] == DigitChar(a);
      assert db[0] == DigitChar(b);
    } else if a >= 10 && b >= 10 {
      var n := |da| - 1;
      assert da == Decimal(a / 10) + [DigitChar(a % 10)];
      assert db == Decimal(b / 10) + [DigitChar(b % 10)];
      assert Decimal(a / 10) == da[..n];
      assert Decimal(b / 10) == db[..n];
      DecimalInjective(a / 10, b / 10);
      assert DigitChar(a % 10) == da[n] == db[n] == DigitChar(b % 10);
    }
  }

  /** `pathinfo($name, PATHINFO_EXTENSION)` / `SplFileInfo::getExtension`: the text after the last `.`,
      or "" when there is none. */
  function PathExtension(name: string): string
  {
    var parts := Split(name, '.');
    if |parts| == 1 then "" else parts[|parts| - 1]
  }

  /** An extension never contains `.`, and a name without `.` has none; a name with a `.` has the
      text after its last `.` as its extension. */
  lemma PathExtensionParts(name: string)
    ensures '.' !in PathExtension(name)
    ensures '.' !in name <==> PathExtension(name) == "" && |Split(name, '.')| == 1
  {
    SplitPartsFree(name, '.');
    SplitNoDelimiterOnly(name, '.');
  }

  /** A string splits into one part only when it has no delimiter (and conversely). */
  lemma {:induction false} SplitNoDelimiterOnly(s: string, d: char)
    ensures |Split(s, d)| == 1 <==> d !in s
    decreases |s|
  {
    if d !in s {
      SplitNoDelimiter(s, d);
    } else if |s| > 0 {
      if s[0] == d {
        assert |Split(s, d)| == 1 + |Split(s[1..], d)|;
      } else {
        assert d in s[1..] by {
          var k :| 0 <= k < |s| && s[k] == d;
          assert s[1..][k - 1] == d;
        }
        SplitNoDelimiterOnly(s[1..], d);
      }
    }
  }
}
