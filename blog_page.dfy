/**
 * Page-number handling of the blog index route (src/app/blog/page.tsx).
 *
 * The `page` query parameter goes through `Number.parseInt`; an explicit 0
 * redirects to `/blog`, a missing or non-numeric value means page 0, and a
 * page past the last page of three posts redirects to `/blog` as well.
 * Next.js's `redirect` (which throws) is modelled as a returned outcome.
 */
module BlogPage {
  import opened Wrappers
  import BlogPosts

  /** Posts shown per page. */
  const PageSize: nat := 3

  /** Where every redirect of this route goes. */
  const BlogRoute: string := "/blog"

  datatype Outcome = Redirect(location: string) | Render(page: int)

  // ---------------------------------------------------------------------------
  // Number.parseInt(s) with no radix argument
  // ---------------------------------------------------------------------------

  /** StrWhiteSpaceChar of ECMAScript: white space (Zs included) and line terminators. */
  predicate IsStrWhiteSpace(c: char) {
    if c <= ' ' then
      c == '\t' || c == '\n' || c == '\U{000B}' || c == '\U{000C}' || c == '\r' || c == ' '
    else if c < '\U{00A0}' then false
    else
      || c == '\U{00A0}' || c == '\U{1680}' || ('\U{2000}' <= c <= '\U{200A}')
      || c == '\U{2028}' || c == '\U{2029}' || c == '\U{202F}' || c == '\U{205F}'
      || c == '\U{3000}' || c == '\U{FEFF}'
  }

  /** `s` without its leading white space. */
  function TrimStart(s: string): (r: string)
    ensures r == [] || !IsStrWhiteSpace(r[0])
    ensures |r| <= |s|
    ensures forall i :: 0 <= i < |s| - |r| ==> IsStrWhiteSpace(s[i])
  {
    if s != [] && IsStrWhiteSpace(s[0]) then TrimStart(s[1..]) else s
  }

  /** Trimming only removes a prefix: what is left is the tail of the input. */
  lemma {:induction false} TrimStartIsSuffix(s: string)
    ensures s[|s| - |TrimStart(s)|..] == TrimStart(s)
  {
    if s != [] && IsStrWhiteSpace(s[0]) {
      TrimStartIsSuffix(s[1..]);
      assert s[1..][|s[1..]| - |TrimStart(s[1..])|..] == s[|s| - |TrimStart(s)|..];
    }
  }

  /** White space followed by a non-blank string trims to exactly that string. */
  lemma {:induction false} TrimStartAfterWhiteSpace(w: string, x: string)
    requires forall i :: 0 <= i < |w| ==> IsStrWhiteSpace(w[i])
    requires x == [] || !IsStrWhiteSpace(x[0])
    ensures TrimStart(w + x) == x
  {
    if w == [] {
      assert w + x == x;
    } else {
      assert (w + x)[0] == w[0];
      assert (w + x)[1..] == w[1..] + x;
      TrimStartAfterWhiteSpace(w[1..], x);
    }
  }

  /** The value of `c` as a digit in bases up to 36, or 36 when it is none. */
  function DigitValue(c: char): (v: nat)
    ensures v <= 36
  {
    if '0' <= c <= '9' then c as nat - '0' as nat
    else if 'a' <= c <= 'z' then c as nat - 'a' as nat + 10
    else if 'A' <= c <= 'Z' then c as nat - 'A' as nat + 10
    else 36
  }

  predicate IsDigit(c: char, radix: nat) {
    DigitValue(c) < radix
  }

  /** The longest prefix of `s` made of digits of `radix`. */
  function DigitPrefix(s: string, radix: nat): (r: string)
    ensures r <= s
    ensures forall i :: 0 <= i < |r| ==> IsDigit(r[i], radix)
    ensures |r| < |s| ==> !IsDigit(s[|r|], radix)
  {
    if s != [] && IsDigit(s[0], radix) then [s[0]] + DigitPrefix(s[1..], radix) else []
  }

  /** The number the digit string `z` denotes in base `radix`, read most significant digit first. */
  function DigitsValue(z: string, radix: nat, acc: int := 0): (v: int)
    decreases |z|
  {
    if z == [] then acc else DigitsValue(z[1..], radix, acc * radix + DigitValue(z[0]))
  }

  /** Digits never make a negative value from a non-negative start. */
  lemma {:induction false} DigitsValueNonNegative(z: string, radix: nat, acc: int)
    requires acc >= 0
    ensures DigitsValue(z, radix, acc) >= 0
    decreases |z|
  {
    if z != [] {
      var acc' := acc * radix + DigitValue(z[0]);
      assert acc * radix >= 0;
      DigitsValueNonNegative(z[1..], radix, acc');
    }
  }

  /** Positional notation: one more digit on the right multiplies by the radix and adds that digit. */
  lemma {:induction false} DigitsValueAppendDigit(z: string, c: char, radix: nat, acc: int)
    ensures DigitsValue(z + [c], radix, acc) == radix * DigitsValue(z, radix, acc) + DigitValue(c)
    decreases |z|
  {
    if z == [] {
      assert z + [c] == [c];
      assert [c][1..] == [];
    } else {
      assert (z + [c])[0] == z[0];
      assert (z + [c])[1..] == z[1..] + [c];
      DigitsValueAppendDigit(z[1..], c, radix, acc * radix + DigitValue(z[0]));
    }
  }

  /** parseInt reads a negative number after a leading '-'. */
  predicate IsNegative(t: string) {
    t != [] && t[0] == '-'
  }

  /** `t` without a leading '+' or '-'. */
  function Unsigned(t: string): string {
    if t != [] && (t[0] == '-' || t[0] == '+') then t[1..] else t
  }

  /** "0x" or "0X" selects base 16. */
  predicate HasHexPrefix(u: string) {
    |u| >= 2 && u[0] == '0' && (u[1] == 'x' || u[1] == 'X')
  }

  /**
   * `Number.parseInt(s)`: skip leading white space, take an optional sign, read
   * "0x"/"0X" as base 16 and otherwise base 10, and convert the longest digit
   * prefix. None stands for NaN (no digit at all). `-0` is 0, as `-0 === 0`.
   */
  function ParseInt(s: string): (r: Option<int>)
    ensures r.Some? && r.value < 0 ==> IsNegative(TrimStart(s))
  {
    var t := TrimStart(s);
    var u := Unsigned(t);
    var radix := if HasHexPrefix(u) then 16 else 10;
    var z := DigitPrefix(if HasHexPrefix(u) then u[2..] else u, radix);
    if z == [] then None
    else if IsNegative(t) then Some(-DigitsValue(z, radix))
    else
      DigitsValueNonNegative(z, radix, 0);
      Some(DigitsValue(z, radix))
  }

  lemma {:induction false} DigitPrefixOfDigits(d: string, rest: string, radix: nat)
    requires forall i :: 0 <= i < |d| ==> IsDigit(d[i], radix)
    requires rest == [] || !IsDigit(rest[0], radix)
    ensures DigitPrefix(d + rest, radix) == d
  {
    if d != [] {
      assert (d + rest)[1..] == d[1..] + rest;
      DigitPrefixOfDigits(d[1..], rest, radix);
    } else {
      assert d + rest == rest;
    }
  }

  /**
   * The page value is the leading integer of the parameter: decimal digits
   * followed by anything that is not a digit ("2abc" is 2), unless they are the
   * "0" of a hexadecimal "0x" prefix.
   */
  lemma {:induction false} LeadingDecimalDigits(d: string, rest: string)
    requires d != [] && forall i :: 0 <= i < |d| ==> IsDigit(d[i], 10)
    requires rest == [] || !IsDigit(rest[0], 10)
    requires !(d == "0" && rest != [] && (rest[0] == 'x' || rest[0] == 'X'))
    ensures ParseInt(d + rest) == Some(DigitsValue(d, 10))
  {
    assert "" + "" + d + rest == d + rest;
    ParseIntSigned("", "", d, rest);
  }

  /** Decimal digits that are not the "0" of a "0x" prefix are read in base 10 up to the first non-digit. */
  lemma DecimalBody(d: string, rest: string)
    requires d != [] && forall i :: 0 <= i < |d| ==> IsDigit(d[i], 10)
    requires rest == [] || !IsDigit(rest[0], 10)
    requires !(d == "0" && rest != [] && (rest[0] == 'x' || rest[0] == 'X'))
    ensures !HasHexPrefix(d + rest) && DigitPrefix(d + rest, 10) == d
  {
    var u := d + rest;
    assert u[0] == d[0];
    assert !HasHexPrefix(u) by {
      if |d| >= 2 {
        assert u[1] == d[1];
        DecimalDigitChar(d[1]);
      }
    }
    DigitPrefixOfDigits(d, rest, 10);
  }

  /**
   * The general decimal case: leading white space `w`, then no sign, '+' or
   * '-', then decimal digits `d` and anything that is not a digit.
   */
  lemma {:induction false} ParseIntSigned(w: string, sg: string, d: string, rest: string)
    requires forall i :: 0 <= i < |w| ==> IsStrWhiteSpace(w[i])
    requires sg == "" || sg == "+" || sg == "-"
    requires d != [] && forall i :: 0 <= i < |d| ==> IsDigit(d[i], 10)
    requires rest == [] || !IsDigit(rest[0], 10)
    requires !(d == "0" && rest != [] && (rest[0] == 'x' || rest[0] == 'X'))
    ensures ParseInt(w + sg + d + rest) == Some(if sg == "-" then -DigitsValue(d, 10) else DigitsValue(d, 10))
  {
    var u := d + rest;
    var x := sg + u;
    Regroup(w, sg, d, rest);
    SignThenDigits(sg, d, rest);
    TrimStartAfterWhiteSpace(w, x);
    DecimalBody(d, rest);
    ParseIntOfParts(w + x, x, u, 10, d);
  }

  lemma Regroup(w: string, sg: string, d: string, rest: string)
    ensures w + sg + d + rest == w + (sg + (d + rest))
  {
  }

  /** After an optional sign come the digits: the sign is no white space and says whether the value is negated. */
  lemma SignThenDigits(sg: string, d: string, rest: string)
    requires sg == "" || sg == "+" || sg == "-"
    requires d != [] && IsDigit(d[0], 10)
    ensures var x := sg + (d + rest);
      && x != [] && !IsStrWhiteSpace(x[0])
      && Unsigned(x) == d + rest
      && (IsNegative(x) <==> sg == "-")
  {
    var u := d + rest;
    var x := sg + u;
    DecimalDigitChar(d[0]);
    assert u[0] == d[0];
    if sg == "" {
      assert x == u;
    } else {
      assert x[0] == sg[0];
      assert x[1..] == u;
    }
  }

  /** How `ParseInt` composes its steps, once each step's result is known. */
  lemma ParseIntOfParts(s: string, t: string, u: string, radix: nat, z: string)
    requires TrimStart(s) == t && Unsigned(t) == u
    requires radix == (if HasHexPrefix(u) then 16 else 10)
    requires DigitPrefix(if HasHexPrefix(u) then u[2..] else u, radix) == z
    ensures ParseInt(s) == if z == [] then None else if IsNegative(t) then Some(-DigitsValue(z, radix)) else Some(DigitsValue(z, radix))
  {
  }

  /**
   * Leading white space `w`, an optional sign, then "0x" or "0X" and
   * hexadecimal digits `d`: base 16, negated after '-', and NaN when no digit
   * follows the prefix.
   */
  lemma {:induction false} ParseIntHex(w: string, sg: string, x: char, d: string, rest: string)
    requires forall i :: 0 <= i < |w| ==> IsStrWhiteSpace(w[i])
    requires sg == "" || sg == "+" || sg == "-"
    requires x == 'x' || x == 'X'
    requires forall i :: 0 <= i < |d| ==> IsDigit(d[i], 16)
    requires rest == [] || !IsDigit(rest[0], 16)
    ensures ParseInt(w + sg + ['0', x] + d + rest) ==
      if d == [] then None else Some(if sg == "-" then -DigitsValue(d, 16) else DigitsValue(d, 16))
  {
    var u := ['0', x] + (d + rest);
    var t := sg + u;
    RegroupHex(w, sg, x, d, rest);
    assert IsDigit('0', 10);
    SignThenDigits(sg, ['0', x], d + rest);
    TrimStartAfterWhiteSpace(w, t);
    assert HasHexPrefix(u) by {
      assert u[0] == '0' && u[1] == x;
    }
    assert DigitPrefix(u[2..], 16) == d by {
      TwoCharsThen('0', x, d + rest);
      DigitPrefixOfDigits(d, rest, 16);
    }
    ParseIntOfParts(w + t, t, u, 16, d);
  }

  lemma RegroupHex(w: string, sg: string, x: char, d: string, rest: string)
    ensures w + sg + ['0', x] + d + rest == w + (sg + (['0', x] + (d + rest)))
  {
  }

  lemma TwoCharsThen(a: char, b: char, v: string)
    ensures ([a, b] + v)[2..] == v
  {
  }

  /** Without a digit after the optional sign there is no number: NaN. */
  lemma {:induction false} ParseIntNoDigits(w: string, sg: string, rest: string)
    requires forall i :: 0 <= i < |w| ==> IsStrWhiteSpace(w[i])
    requires sg == "" || sg == "+" || sg == "-"
    requires rest == [] || (!IsDigit(rest[0], 10) && !IsStrWhiteSpace(rest[0]) && rest[0] != '+' && rest[0] != '-')
    ensures ParseInt(w + sg + rest) == None
  {
    var t := sg + rest;
    assert w + sg + rest == w + t;
    if sg == "" {
      assert t == rest;
    } else {
      assert t[0] == sg[0] && t[1..] == rest;
    }
    assert t == [] || !IsStrWhiteSpace(t[0]);
    TrimStartAfterWhiteSpace(w, t);
    assert Unsigned(t) == rest;
    assert !HasHexPrefix(rest);
    assert DigitPrefix(rest, 10) == [];
    ParseIntOfParts(w + t, t, rest, 10, []);
  }

  lemma DecimalDigitChar(c: char)
    requires IsDigit(c, 10)
    ensures '0' <= c <= '9'
  {
  }

  /** `?page=-1` parses to -1, and `?page= +2` to 2. */
  lemma ParseSignedExamples()
    ensures ParseInt("-1") == Some(-1)
    ensures ParseInt(" +2") == Some(2)
  {
    assert "-1" == "" + "-" + "1" + "";
    ParseIntSigned("", "-", "1", "");
    assert DigitsValue("1", 10) == 1;
    assert " +2" == " " + "+" + "2" + "";
    ParseIntSigned(" ", "+", "2", "");
    assert DigitsValue("2", 10) == 2;
  }

  /** "0x1F" is 31. */
  lemma ParseHexExample()
    ensures ParseInt("0x1F") == Some(31)
  {
    HexOneF();
    assert "0x1F" == "" + "" + ['0', 'x'] + "1F" + "";
    ParseIntHex("", "", 'x', "1F", "");
  }

  /** The sign applies to a hexadecimal number too: "-0x1F" is -31. */
  lemma ParseNegativeHexExample()
    ensures ParseInt("-0x1F") == Some(-31)
  {
    HexOneF();
    assert "-0x1F" == "" + "-" + ['0', 'x'] + "1F" + "";
    ParseIntHex("", "-", 'x', "1F", "");
  }

  lemma HexOneF()
    ensures DigitsValue("1F", 16) == 31
  {
    assert DigitsValue("1F", 16) == DigitsValue("F", 16, 1);
  }

  /** "0xg" is NaN: no hexadecimal digit follows the prefix. */
  lemma ParseHexWithoutDigits()
    ensures ParseInt("0xg") == None
  {
    assert "0xg" == "" + "" + ['0', 'x'] + "" + "g";
    ParseIntHex("", "", 'x', "", "g");
  }

  /** "abc" and " -a" are NaN. */
  lemma ParseNoDigitExamples()
    ensures ParseInt("abc") == None
    ensures ParseInt(" -a") == None
  {
    assert "abc" == "" + "" + "abc";
    ParseIntNoDigits("", "", "abc");
    assert " -a" == " " + "-" + "a";
    ParseIntNoDigits(" ", "-", "a");
  }

  lemma ParseTwoAbc()
    ensures ParseInt("2abc") == Some(2)
  {
    assert "2abc" == "2" + "abc";
    LeadingDecimalDigits("2", "abc");
  }

  // ---------------------------------------------------------------------------
  // BlogPage
  // ---------------------------------------------------------------------------

  /** `Math.ceil(n / 3)`: the number of pages `n` posts fill. */
  function PageCount(n: nat): (c: nat)
    ensures PageSize * (c - 1) < n <= PageSize * c
  {
    (n + PageSize - 1) / PageSize
  }

  /** The page number the route parses from the `page` query value (`searchParams.page ?? ""`). */
  function ParsedPage(pageParam: Option<string>): (r: Option<int>)
    ensures pageParam.GetOr("") == "" ==> r.None?
  {
    ParseInt(pageParam.GetOr(""))
  }

  /** The page-number logic of `BlogPage` (src/app/blog/page.tsx:17-29), with `redirect` as an outcome. */
  function BlogPage(pageParam: Option<string>, posts: seq<BlogPosts.Post>): (r: Outcome)
    ensures r.Redirect? ==> r.location == BlogRoute
    ensures r.Render? <==> ParsedPage(pageParam) != Some(0) && PageSize * ParsedPage(pageParam).GetOr(0) < |posts|
    ensures r.Render? ==> r.page == ParsedPage(pageParam).GetOr(0)
  {
    var parsedPage := ParsedPage(pageParam);
    if parsedPage == Some(0) then Redirect(BlogRoute)
    else
      var page := parsedPage.GetOr(0);
      if page > PageCount(|posts|) - 1 then Redirect(BlogRoute) else Render(page)
  }

  /** An absent or non-numeric `page` shows page 0 of a non-empty blog. */
  lemma MissingPageIsFirstPage(pageParam: Option<string>, posts: seq<BlogPosts.Post>)
    requires ParsedPage(pageParam) == None && |posts| > 0
    ensures BlogPage(pageParam, posts) == Render(0)
  {
  }

  /** `?page=0` (and anything parsing to 0, such as "-0" or "00") always redirects to /blog. */
  lemma ExplicitZeroRedirects(pageParam: Option<string>, posts: seq<BlogPosts.Post>)
    requires ParsedPage(pageParam) == Some(0)
    ensures BlogPage(pageParam, posts) == Redirect(BlogRoute)
  {
  }

  /** A page past `ceil(n/3) - 1` redirects to /blog. */
  lemma PageBeyondLastRedirects(pageParam: Option<string>, posts: seq<BlogPosts.Post>, p: int)
    requires ParsedPage(pageParam) == Some(p) && p > PageCount(|posts|) - 1
    ensures BlogPage(pageParam, posts) == Redirect(BlogRoute)
  {
  }

  /** A page from 1 to `ceil(n/3) - 1` is rendered with exactly that number. */
  lemma PageInRangeRenders(pageParam: Option<string>, posts: seq<BlogPosts.Post>, p: int)
    requires ParsedPage(pageParam) == Some(p) && 1 <= p <= PageCount(|posts|) - 1
    ensures BlogPage(pageParam, posts) == Render(p)
  {
  }

  /** The bound is an upper bound only: a negative page such as "-1" is rendered. */
  lemma NegativePageRenders(pageParam: Option<string>, posts: seq<BlogPosts.Post>, p: int)
    requires ParsedPage(pageParam) == Some(p) && p < 0
    ensures BlogPage(pageParam, posts) == Render(p)
  {
  }

  /** Seven posts make three pages: `?page=2` shows the last one and `?page=3` redirects. */
  lemma SevenPosts(posts: seq<BlogPosts.Post>)
    requires |posts| == 7
    ensures PageCount(|posts|) == 3
    ensures BlogPage(Some("2"), posts) == Render(2)
    ensures BlogPage(Some("3"), posts) == Redirect(BlogRoute)
  {
    assert "2" == "2" + "" && "3" == "3" + "";
    LeadingDecimalDigits("2", "");
    LeadingDecimalDigits("3", "");
    assert ParsedPage(Some("2")) == Some(2);
    assert ParsedPage(Some("3")) == Some(3);
  }

  /** With posts to show, the redirect target `/blog` itself renders page 0: one redirect suffices. */
  lemma RedirectTargetRenders(posts: seq<BlogPosts.Post>)
    requires |posts| > 0
    ensures BlogPage(None, posts) == Render(0)
  {
  }

  /**
   * With no posts, `ceil(0/3) - 1 = -1` so even page 0 is out of bounds: every
   * request without a negative page, the bare `/blog` included, redirects to
   * `/blog`, which redirects again.
   */
  lemma EmptyBlogRedirectsToItself(pageParam: Option<string>)
    requires ParsedPage(pageParam).GetOr(0) >= 0
    ensures BlogPage(pageParam, []) == Redirect(BlogRoute)
    ensures BlogPage(None, []) == Redirect(BlogRoute)
  {
  }

  /** `BlogPage` with the last page never below page 0, so an empty blog shows an empty first page. */
  function BlogPageCorrected(pageParam: Option<string>, posts: seq<BlogPosts.Post>): (r: Outcome)
    ensures r.Redirect? ==> r.location == BlogRoute
    ensures r.Render? <==> ParsedPage(pageParam) != Some(0) && (PageSize * ParsedPage(pageParam).GetOr(0) < |posts| || ParsedPage(pageParam).GetOr(0) <= 0)
    ensures r.Render? ==> r.page == ParsedPage(pageParam).GetOr(0)
  {
    var parsedPage := ParsedPage(pageParam);
    if parsedPage == Some(0) then Redirect(BlogRoute)
    else
      var page := parsedPage.GetOr(0);
      var lastPage := if PageCount(|posts|) == 0 then 0 else PageCount(|posts|) - 1;
      if page > lastPage then Redirect(BlogRoute) else Render(page)
  }

  /** The corrected route never redirects `/blog` to itself, whatever the number of posts. */
  lemma CorrectedRedirectTargetRenders(posts: seq<BlogPosts.Post>)
    ensures BlogPageCorrected(None, posts) == Render(0)
  {
  }

  /** The correction only changes the empty blog. */
  lemma CorrectedAgreesWithPosts(pageParam: Option<string>, posts: seq<BlogPosts.Post>)
    requires |posts| > 0
    ensures BlogPageCorrected(pageParam, posts) == BlogPage(pageParam, posts)
  {
  }
}
