/**
 * The small pieces of Java's string and integer behaviour that the version
 * store relies on: `String.trim`, `Integer.parseInt`, `String.valueOf(int)`,
 * 32-bit `int` arithmetic, `Path.getFileName`, ASCII `toUpperCase`, the first
 * element of `split("\n")` and the quote-stripping regex `^"|"$`.
 */
module Text {
  import opened Wrappers

  const MinInt: int := -0x8000_0000
  const MaxInt: int := 0x7fff_ffff

  /** Java `int` wrap-around: the value congruent to x modulo 2^32 in [MinInt, MaxInt]. */
  function Wrap32(x: int): (r: int)
    ensures MinInt <= r <= MaxInt
    ensures (r - x) % 0x1_0000_0000 == 0
    ensures MinInt <= x <= MaxInt ==> r == x
  {
    (x - MinInt) % 0x1_0000_0000 + MinInt
  }

  predicate StartsWith(s: string, prefix: string) {
    |prefix| <= |s| && s[..|prefix|] == prefix
  }

  // ---------------------------------------------------------------------
  // String.trim: drops every leading and trailing character <= ' '.

  /** A character that `trim` removes: a control character or the space. */
  predicate IsBlank(c: char) { c <= ' ' }

  function TrimStart(s: string): (r: string)
    ensures |r| <= |s| && r == s[|s| - |r|..]
    ensures |r| > 0 ==> !IsBlank(r[0])
    ensures forall k :: 0 <= k < |s| - |r| ==> IsBlank(s[k])
    decreases |s|
  {
    if |s| > 0 && IsBlank(s[0]) then TrimStart(s[1..]) else s
  }

  function TrimEnd(s: string): (r: string)
    ensures |r| <= |s| && r == s[..|r|]
    ensures |r| > 0 ==> !IsBlank(r[|r| - 1])
    ensures forall k :: |r| <= k < |s| ==> IsBlank(s[k])
    decreases |s|
  {
    if |s| > 0 && IsBlank(s[|s| - 1]) then TrimEnd(s[..|s| - 1]) else s
  }

  /** Java's `String.trim`. */
  function Trim(s: string): (r: string)
    ensures |r| > 0 ==> !IsBlank(r[0]) && !IsBlank(r[|r| - 1])
    ensures (|s| == 0 || (!IsBlank(s[0]) && !IsBlank(s[|s| - 1]))) ==> r == s
  {
    TrimEnd(TrimStart(s))
  }

  // ---------------------------------------------------------------------
  // Decimal integers: String.valueOf(int) and Integer.parseInt.

  predicate IsDigit(c: char) { '0' <= c <= '9' }

  function DigitChar(d: nat): (c: char)
    requires d < 10
    ensures IsDigit(c) && c as int - '0' as int == d
  {
    (d + '0' as int) as char
  }

  function NatToString(n: nat): (s: string)
    ensures |s| > 0 && forall k :: 0 <= k < |s| ==> IsDigit(s[k])
    ensures s[0] == '0' <==> n == 0
    ensures s == "0" || s[0] != '0'
    decreases n
  {
    if n < 10 then [DigitChar(n)] else NatToString(n / 10) + [DigitChar(n % 10)]
  }

  /** `String.valueOf(n)`: an optional '-' followed by the decimal digits of |n|. */
  function IntToString(n: int): (r: string)
    ensures |r| > 0 && (r[0] == '-' <==> n < 0)
    ensures forall k :: 0 <= k < |r| ==> IsDigit(r[k]) || (k == 0 && r[k] == '-')
    ensures n < 0 ==> |r| > 1 && r[1] != '0'
    ensures n >= 0 ==> r == "0" || r[0] != '0'
  {
    if n < 0 then "-" + NatToString(-n) else NatToString(n)
  }

  /** The value of a string of decimal digits, most significant first. */
  function DigitsValue(s: string): nat
    requires forall k :: 0 <= k < |s| ==> IsDigit(s[k])
    decreases |s|
  {
    if |s| == 0 then 0
    else
      assert IsDigit(s[|s| - 1]);
      DigitsValue(s[..|s| - 1]) * 10 + (s[|s| - 1] as int - '0' as int)
  }

  /**
   * `Integer.parseInt(s)`: None stands for the NumberFormatException thrown on
   * an empty string, a lone sign, a non-digit or a value outside the int range.
   */
  function ParseInt(s: string): (r: Option<int>)
    ensures r.Some? ==> MinInt <= r.value <= MaxInt
    ensures |s| == 0 ==> r.None?
  {
    if |s| == 0 then None
    else
      var signed := s[0] == '-' || s[0] == '+';
      var digits := if signed then s[1..] else s;
      if |digits| == 0 || exists k :: 0 <= k < |digits| && !IsDigit(digits[k]) then None
      else
        var v: int := if s[0] == '-' then 0 - DigitsValue(digits) as int else DigitsValue(digits) as int;
        if MinInt <= v <= MaxInt then Some(v) else None
  }

  lemma {:induction false} NatToStringValue(n: nat)
    ensures DigitsValue(NatToString(n)) == n
    decreases n
  {
    if n >= 10 {
      var s := NatToString(n);
      NatToStringValue(n / 10);
      assert s[..|s| - 1] == NatToString(n / 10);
    }
  }

  /** Every int printed by `String.valueOf` parses back to itself. */
  lemma ParseIntRoundTrip(n: int)
    requires MinInt <= n <= MaxInt
    ensures ParseInt(IntToString(n)) == Some(n)
  {
    var s := IntToString(n);
    if n < 0 {
      NatToStringValue(-n);
      assert s[1..] == NatToString(-n);
    } else {
      NatToStringValue(n);
      assert IsDigit(s[0]);
    }
  }

  /** A printed integer has no surrounding white space, so `trim` leaves it alone. */
  lemma TrimIntToString(n: int)
    ensures Trim(IntToString(n)) == IntToString(n)
  {
    var s := IntToString(n);
    assert IsDigit(s[|s| - 1]);
  }

  // ---------------------------------------------------------------------
  // Path.getFileName on a relative path.

  function DropTrailingSlashes(p: string): (r: string)
    ensures |r| <= |p| && r == p[..|r|] && (|r| == 0 || r[|r| - 1] != '/')
    ensures forall k :: |r| <= k < |p| ==> p[k] == '/'
    decreases |p|
  {
    if |p| > 0 && p[|p| - 1] == '/' then DropTrailingSlashes(p[..|p| - 1]) else p
  }

  /**
   * `Paths.get(p).toString()` for a relative p: a run of '/' becomes one
   * '/', and a trailing '/' is dropped unless it is all that is left.
   */
  function JavaPath(p: string): (r: string)
    ensures '/' !in p ==> r == p
    ensures forall k :: 0 <= k < |r| - 1 ==> !(r[k] == '/' && r[k + 1] == '/')
    ensures |r| > 1 ==> r[|r| - 1] != '/'
  {
    var c := CollapseSlashes(p);
    if |c| > 1 && c[|c| - 1] == '/' then c[..|c| - 1] else c
  }

  function CollapseSlashes(p: string): (r: string)
    ensures |p| > 0 ==> |r| > 0 && r[0] == p[0]
    ensures '/' !in p ==> r == p
    ensures forall k :: 0 <= k < |r| - 1 ==> !(r[k] == '/' && r[k + 1] == '/')
    decreases |p|
  {
    if |p| == 0 then p
    else if |p| >= 2 && p[0] == '/' && p[1] == '/' then CollapseSlashes(p[1..])
    else
      var rest := CollapseSlashes(p[1..]);
      assert '/' !in p ==> '/' !in p[1..] && p == [p[0]] + p[1..];
      assert |p| >= 2 ==> rest[0] == p[1];
      [p[0]] + rest
  }

  /** A '/' next to a run of '/' disappears: each run leaves exactly one '/'. */
  lemma {:induction false} CollapseDoubled(a: string, b: string)
    ensures CollapseSlashes(a + "/" + b) == CollapseSlashes(a + "//" + b)
    decreases |a|
  {
    var p, q := a + "/" + b, a + "//" + b;
    if |a| > 0 {
      assert p[0] == q[0] && p[1] == q[1];
      assert p[1..] == a[1..] + "/" + b && q[1..] == a[1..] + "//" + b;
      CollapseDoubled(a[1..], b);
    } else {
      assert q[1..] == p;
    }
  }

  /** A doubled '/' between two names: `Paths.get("dir//a.txt")` prints as "dir/a.txt". */
  lemma JoinedNames(a: string, b: string)
    requires '/' !in a && '/' !in b && |b| > 0
    ensures JavaPath(a + "//" + b) == a + "/" + b
  {
    var p := a + "/" + b;
    assert forall k :: 0 <= k < |p| ==> (p[k] == '/' <==> k == |a|);
    CollapseNormal(p);
    CollapseDoubled(a, b);
    assert p[|p| - 1] == b[|b| - 1];
  }

  /** A string without a doubled '/' is left alone by the collapsing. */
  lemma {:induction false} CollapseNormal(p: string)
    requires forall k :: 0 <= k < |p| - 1 ==> !(p[k] == '/' && p[k + 1] == '/')
    ensures CollapseSlashes(p) == p
    decreases |p|
  {
    if |p| > 0 {
      var q := p[1..];
      assert forall k :: 0 <= k < |q| ==> q[k] == p[k + 1];
      CollapseNormal(q);
      assert p == [p[0]] + q;
    }
  }

  /** The string form of a path is its own string form. */
  lemma JavaPathIdempotent(p: string)
    ensures JavaPath(JavaPath(p)) == JavaPath(p)
  {
    var q := JavaPath(p);
    CollapseNormal(q);
    assert CollapseSlashes(q) == q;
    assert !(|q| > 1 && q[|q| - 1] == '/');
  }

  /** A plain name with a trailing '/' names the file itself. */
  lemma JavaPathTrailingSlash(p: string)
    requires |p| > 0 && '/' !in p
    ensures JavaPath(p + "/") == p
  {
    var q := p + "/";
    assert forall k :: 0 <= k < |q| - 1 ==> q[k] == p[k] && q[k] != '/';
    CollapseNormal(q);
    assert q[..|q| - 1] == p;
  }

  /** The characters after the last '/', or all of p when it has none. */
  function LastComponent(p: string): (r: string)
    ensures '/' !in r
    decreases |p|
  {
    if |p| == 0 || p[|p| - 1] == '/' then [] else LastComponent(p[..|p| - 1]) + [p[|p| - 1]]
  }

  /** The last component is a suffix of the path, and when shorter it follows a '/'. */
  lemma {:induction false} LastComponentIsSuffix(p: string)
    ensures var r := LastComponent(p);
      && |r| <= |p| && r == p[|p| - |r|..]
      && (|r| < |p| ==> p[|p| - |r| - 1] == '/')
    decreases |p|
  {
    if |p| > 0 && p[|p| - 1] != '/' {
      var q := p[..|p| - 1];
      LastComponentIsSuffix(q);
      var r := LastComponent(q);
      assert q[|q| - |r|..] + [p[|p| - 1]] == p[|p| - |r| - 1..];
    }
  }

  /** `Paths.get(p).getFileName().toString()`: the last name of the path. */
  function BaseName(p: string): (r: string)
    ensures '/' !in r
  {
    LastComponent(DropTrailingSlashes(p))
  }

  /**
   * The file name is the longest '/'-free suffix of the path without its
   * trailing '/': a suffix, free of '/', and preceded by '/' when shorter.
   */
  lemma BaseNameIsLastName(p: string)
    ensures var q, r := DropTrailingSlashes(p), BaseName(p);
      && '/' !in r && |r| <= |q| && r == q[|q| - |r|..]
      && (|r| < |q| ==> q[|q| - |r| - 1] == '/')
  {
    LastComponentIsSuffix(DropTrailingSlashes(p));
  }

  /** After the last '/', the last component is exactly what follows it. */
  lemma {:induction false} LastComponentAfterSlash(a: string, b: string)
    requires '/' !in b
    ensures LastComponent(a + "/" + b) == b
    decreases |b|
  {
    var p := a + "/" + b;
    if |b| > 0 {
      assert p[..|p| - 1] == a + "/" + b[..|b| - 1];
      LastComponentAfterSlash(a, b[..|b| - 1]);
      assert b == b[..|b| - 1] + [b[|b| - 1]];
    }
  }

  /** `Paths.get("dir/a.txt").getFileName()` is "a.txt", with or without a trailing '/'. */
  lemma NestedBaseName()
    ensures BaseName("dir/a.txt") == "a.txt"
    ensures BaseName("dir/a.txt/") == "a.txt"
  {
    assert "dir" + "/" + "a.txt" == "dir/a.txt";
    LastComponentAfterSlash("dir", "a.txt");
    assert DropTrailingSlashes("dir/a.txt/") == "dir/a.txt";
  }

  lemma {:induction false} LastComponentOfPlainName(p: string)
    requires '/' !in p
    ensures LastComponent(p) == p
    decreases |p|
  {
    if |p| > 0 {
      LastComponentOfPlainName(p[..|p| - 1]);
      assert p == p[..|p| - 1] + [p[|p| - 1]];
    }
  }

  /** A name without a '/' is its own base name; otherwise only its last name is kept. */
  lemma BaseNameOfPlainName(p: string)
    requires '/' !in p
    ensures BaseName(p) == p
  {
    assert |p| == 0 || p[|p| - 1] != '/';
    LastComponentOfPlainName(p);
  }

  // ---------------------------------------------------------------------
  // String.toUpperCase, restricted to ASCII letters.

  function UpperChar(c: char): char {
    if 'a' <= c <= 'z' then (c as int - 32) as char else c
  }

  function ToUpper(s: string): (r: string)
    ensures |r| == |s| && forall k :: 0 <= k < |s| ==> r[k] == UpperChar(s[k])
  {
    seq(|s|, k requires 0 <= k < |s| => UpperChar(s[k]))
  }

  // ---------------------------------------------------------------------
  // `message.split("\n")[0]`.

  /** The text before the first newline (all of m when it has none). */
  function FirstLine(m: string): (r: string)
    ensures |r| <= |m| && r == m[..|r|]
    ensures '\n' !in r
    ensures |r| < |m| ==> m[|r|] == '\n'
  {
    if |m| == 0 || m[0] == '\n' then [] else [m[0]] + FirstLine(m[1..])
  }

  /** The first line of a line followed by a newline (or by nothing) is that line. */
  lemma {:induction false} FirstLineOfLine(m: string, line: string, rest: string)
    requires m == line + rest && '\n' !in line && (|rest| == 0 || rest[0] == '\n')
    ensures FirstLine(m) == line
    decreases |line|
  {
    if |line| > 0 {
      assert '\n' !in line[1..];
      FirstLineOfLine(m[1..], line[1..], rest);
    }
  }

  // ---------------------------------------------------------------------
  // `raw.replaceAll("^\"|\"$", "")`.

  /** The characters that Java's `$` accepts as a final line terminator. */
  predicate IsLineTerminator(c: char) {
    c == '\n' || c == '\r' || c == '\U{0085}' || c == '\U{2028}' || c == '\U{2029}'
  }

  /**
   * What may follow the quote that `"$` matches: nothing, or one final line
   * terminator, `\r\n` counting as one.
   */
  predicate AtEnd(rest: string) {
    |rest| == 0 || (|rest| == 2 && rest[0] == '\r' && rest[1] == '\n') || (|rest| == 1 && IsLineTerminator(rest[0]))
  }

  /**
   * The quote `"$` matches sits in one of three places: last, before a
   * final line terminator, or before a final `\r\n`.
   */
  lemma EndQuoteNearEnd(t: string)
    ensures forall k :: 0 <= k < |t| && t[k] == '"' && AtEnd(t[k + 1..]) ==>
      || (k == |t| - 1)
      || (k == |t| - 2 && IsLineTerminator(t[|t| - 1]))
      || (k == |t| - 3 && t[|t| - 3] == '"' && t[|t| - 2] == '\r' && t[|t| - 1] == '\n')
  {
    forall k | 0 <= k < |t| && t[k] == '"' && AtEnd(t[k + 1..])
      ensures || (k == |t| - 1)
              || (k == |t| - 2 && IsLineTerminator(t[|t| - 1]))
              || (k == |t| - 3 && t[|t| - 3] == '"' && t[|t| - 2] == '\r' && t[|t| - 1] == '\n')
    {
      var rest := t[k + 1..];
      if |rest| == 2 {
        assert rest[0] == t[|t| - 2] && rest[1] == t[|t| - 1];
      } else if |rest| == 1 {
        assert rest[0] == t[|t| - 1];
      }
    }
  }

  /** At most one quote is followed by the end or by a final line terminator. */
  lemma OnlyEndQuote(t: string, k: int)
    requires 0 <= k < |t| && t[k] == '"' && AtEnd(t[k + 1..])
    ensures forall j :: 0 <= j < |t| && t[j] == '"' && AtEnd(t[j + 1..]) ==> j == k
  {
    EndQuoteNearEnd(t);
    assert k == |t| - 1 || (k == |t| - 2 && IsLineTerminator(t[|t| - 1])) || (k == |t| - 3 && t[|t| - 3] == '"' && t[|t| - 2] == '\r' && t[|t| - 1] == '\n');
  }

  /** Removes one '"' at the very start. */
  function StripLeadingQuote(s: string): (r: string)
    ensures if StartsWith(s, "\"") then s == "\"" + r else r == s
  {
    if |s| > 0 && s[0] == '"' then s[1..] else s
  }

  /**
   * Removes one '"' at the end of input, where "end" is also the position
   * just before a final line terminator (`\r\n` counting as one).
   */
  function StripTrailingQuote(t: string): (r: string)
    ensures r == t || exists k :: 0 <= k < |t| && |t| - 3 <= k && t[k] == '"' && r == t[..k] + t[k + 1..]
  {
    if |t| >= 1 && t[|t| - 1] == '"' then
      var k := |t| - 1;
      t[..k] + t[k + 1..]
    else if |t| >= 3 && t[|t| - 3] == '"' && t[|t| - 2] == '\r' && t[|t| - 1] == '\n' then
      var k := |t| - 3;
      assert t[k] == '"';
      t[..k] + t[k + 1..]
    else if |t| >= 2 && IsLineTerminator(t[|t| - 1]) && t[|t| - 2] == '"' then
      var k := |t| - 2;
      t[..k] + t[k + 1..]
    else t
  }

  /**
   * `"$` matches exactly a quote followed by the end or by a final line
   * terminator: the text changes iff there is one, and then exactly that
   * quote goes.
   */
  lemma StripTrailingQuoteExact(t: string)
    ensures StripTrailingQuote(t) != t <==> exists k :: 0 <= k < |t| && t[k] == '"' && AtEnd(t[k + 1..])
    ensures forall k :: 0 <= k < |t| && t[k] == '"' && AtEnd(t[k + 1..]) ==> StripTrailingQuote(t) == t[..k] + t[k + 1..]
  {
    var r := StripTrailingQuote(t);
    if |t| >= 1 && t[|t| - 1] == '"' {
      var k := |t| - 1;
      assert AtEnd(t[k + 1..]);
      OnlyEndQuote(t, k);
      assert r == t[..k] + t[k + 1..];
    } else if |t| >= 3 && t[|t| - 3] == '"' && t[|t| - 2] == '\r' && t[|t| - 1] == '\n' {
      var k := |t| - 3;
      assert t[k + 1..][0] == t[|t| - 2] && t[k + 1..][1] == t[|t| - 1];
      OnlyEndQuote(t, k);
      assert r == t[..k] + t[k + 1..];
    } else if |t| >= 2 && IsLineTerminator(t[|t| - 1]) && t[|t| - 2] == '"' {
      var k := |t| - 2;
      assert t[k + 1..] == [t[|t| - 1]];
      OnlyEndQuote(t, k);
      assert r == t[..k] + t[k + 1..];
    } else {
      EndQuoteNearEnd(t);
      assert r == t;
    }
  }

  /** The regular-expression replacement followed by `trim()`. */
  function CleanMessage(raw: string): (r: string)
    ensures |r| > 0 ==> !IsBlank(r[0]) && !IsBlank(r[|r| - 1])
  {
    Trim(StripTrailingQuote(StripLeadingQuote(raw)))
  }

  /** A quoted message loses exactly its quotes and its surrounding blanks. */
  lemma CleanQuoted(body: string)
    requires |body| == 0 || (!IsBlank(body[0]) && !IsBlank(body[|body| - 1]))
    ensures CleanMessage("\"" + body + "\"") == body
  {
    var raw := "\"" + body + "\"";
    assert StripLeadingQuote(raw) == body + "\"";
    assert StripTrailingQuote(body + "\"") == body;
  }

  /** Only a closing quote: `-m 'msg"'` stores msg. */
  lemma CleanClosingQuote(body: string)
    requires |body| == 0 || (!IsBlank(body[0]) && !IsBlank(body[|body| - 1]) && body[0] != '"')
    ensures CleanMessage(body + "\"") == body
  {
    var raw := body + "\"";
    if |body| == 0 {
      assert StripLeadingQuote(raw) == "";
    } else {
      assert StripLeadingQuote(raw) == raw;
      assert StripTrailingQuote(raw) == body;
    }
  }

  /** `"$` matches the quote just before a final newline. */
  lemma QuoteBeforeNewline(s: string)
    ensures StripTrailingQuote(s + "\"\n") == s + "\n"
  {
    var t := s + "\"\n";
    assert t[|t| - 1] == '\n' && t[|t| - 2] == '"' && t[..|t| - 2] == s;
  }

  /** `trim` drops a final newline after a trimmed text. */
  lemma TrimNewline(body: string)
    requires |body| == 0 || (!IsBlank(body[0]) && !IsBlank(body[|body| - 1]))
    ensures Trim(body + "\n") == body
  {
    var u := body + "\n";
    assert TrimStart(u) == u || |body| == 0;
    assert u[..|u| - 1] == body;
  }

  /** The quote before a final newline is the one `"$` removes, and `trim` then drops the newline. */
  lemma CleanQuotedLine(body: string)
    requires |body| == 0 || (!IsBlank(body[0]) && !IsBlank(body[|body| - 1]))
    ensures CleanMessage("\"" + body + "\"\n") == body
  {
    assert StripLeadingQuote("\"" + body + "\"\n") == body + "\"\n";
    QuoteBeforeNewline(body);
    TrimNewline(body);
  }
}
