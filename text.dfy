/** The string operations the scripts use: `str.strip()`, `str.lower()`,
    `str.startswith`, the id slug and Python's ordering of strings. Whitespace and
    case are the ASCII ones. */
module Text {

  /** Regrouping a concatenation; called where a proof would otherwise
      compare the two sequences element by element. */
  lemma AppendAssoc<T>(a: seq<T>, b: seq<T>, c: seq<T>)
    ensures (a + b) + c == a + (b + c)
  {
  }

  /** The ASCII characters for which Python's `str.isspace()` holds. */
  predicate IsSpace(c: char)
  {
    c == ' ' || ('\t' <= c <= '\r') || ('\U{1c}' <= c <= '\U{1f}')
  }

  function TrimLeft(s: string): string
  {
    if s != [] && IsSpace(s[0]) then TrimLeft(s[1..]) else s
  }

  function TrimRight(s: string): string
  {
    if s != [] && IsSpace(s[|s| - 1]) then TrimRight(s[..|s| - 1]) else s
  }

  predicate AllSpace(s: string)
  {
    forall i :: 0 <= i < |s| ==> IsSpace(s[i])
  }

  /** No whitespace at either end. */
  predicate IsStripped(s: string)
  {
    s == [] || (!IsSpace(s[0]) && !IsSpace(s[|s| - 1]))
  }

  /** `s.strip()` */
  function Strip(s: string): string
  {
    TrimRight(TrimLeft(s))
  }

  /** `lstrip()` removes a run of leading whitespace and nothing else. */
  lemma {:induction false} TrimLeftShape(s: string)
    ensures |TrimLeft(s)| <= |s|
    ensures TrimLeft(s) == s[|s| - |TrimLeft(s)|..]
    ensures AllSpace(s[..|s| - |TrimLeft(s)|])
    ensures TrimLeft(s) == [] || !IsSpace(TrimLeft(s)[0])
  {
    if s != [] && IsSpace(s[0]) {
      var t := s[1..];
      TrimLeftShape(t);
      var i := |t| - |TrimLeft(t)|;
      assert TrimLeft(s) == TrimLeft(t);
      assert t[i..] == s[i + 1..];
      var u := s[..i + 1];
      forall j | 0 <= j < i + 1 ensures IsSpace(u[j]) {
        if j > 0 { assert u[j] == t[..i][j - 1]; }
      }
    } else {
      assert s[0..] == s;
    }
  }

  /** `rstrip()` removes a run of trailing whitespace and nothing else. */
  lemma {:induction false} TrimRightShape(s: string)
    ensures |TrimRight(s)| <= |s|
    ensures TrimRight(s) == s[..|TrimRight(s)|]
    ensures AllSpace(s[|TrimRight(s)|..])
    ensures TrimRight(s) == [] || !IsSpace(TrimRight(s)[|TrimRight(s)| - 1])
  {
    if s != [] && IsSpace(s[|s| - 1]) {
      var t := s[..|s| - 1];
      TrimRightShape(t);
      var j := |TrimRight(t)|;
      assert TrimRight(s) == TrimRight(t);
      assert t[..j] == s[..j];
      forall m | 0 <= m < |s| - j ensures IsSpace(s[j..][m]) {
        if m < |t| - j { assert s[j..][m] == t[j..][m]; }
      }
    } else {
      assert s[..|s|] == s;
    }
  }

  lemma {:induction false} TrimRightKeepsFront(s: string)
    requires s != [] && !IsSpace(s[0])
    ensures TrimRight(s) != [] && TrimRight(s)[0] == s[0]
  {
    if IsSpace(s[|s| - 1]) {
      TrimRightKeepsFront(s[..|s| - 1]);
    }
  }

  /** `strip()` returns a slice of its argument that has no whitespace at either
      end, and it removes only whitespace. */
  lemma StripShape(s: string)
    ensures IsStripped(Strip(s))
    ensures exists i, j :: 0 <= i <= j <= |s| && Strip(s) == s[i..j] && AllSpace(s[..i]) && AllSpace(s[j..])
  {
    TrimLeftShape(s);
    var i := |s| - |TrimLeft(s)|;
    var t := s[i..];
    TrimRightShape(t);
    var j := |TrimRight(t)|;
    assert t[..j] == s[i..i + j];
    assert t[j..] == s[i + j..];
    if t != [] {
      TrimRightKeepsFront(t);
    }
    assert Strip(s) == s[i..i + j] && AllSpace(s[..i]) && AllSpace(s[i + j..]);
  }

  lemma {:induction false} TrimLeftStripped(s: string)
    requires IsStripped(s)
    ensures TrimLeft(s) == s
  {
  }

  lemma {:induction false} TrimRightStripped(s: string)
    requires IsStripped(s)
    ensures TrimRight(s) == s
  {
  }

  /** A stripped string is its own strip: `strip()` is idempotent. */
  lemma StripStripped(s: string)
    requires IsStripped(s)
    ensures Strip(s) == s
  {
    TrimLeftStripped(s);
    TrimRightStripped(s);
  }

  lemma StripIdempotent(s: string)
    ensures Strip(Strip(s)) == Strip(s)
  {
    StripShape(s);
    StripStripped(Strip(s));
  }

  /** Reading a written line back: the line terminator is removed by `strip()`. */
  lemma {:induction false} StripWithNewline(s: string)
    requires IsStripped(s)
    ensures Strip(s + "\n") == s
  {
    if s == [] {
      assert TrimLeft("\n") == TrimLeft([]);
    } else {
      assert TrimLeft(s + "\n") == s + "\n";
      assert (s + "\n")[..|s + "\n"| - 1] == s;
      assert TrimRight(s + "\n") == TrimRight(s);
      TrimRightStripped(s);
    }
  }

  function LowerChar(c: char): char
  {
    if 'A' <= c <= 'Z' then (c as int + 32) as char else c
  }

  /** `s.lower()` */
  function Lower(s: string): (r: string)
    ensures |r| == |s|
  {
    if s == [] then [] else [LowerChar(s[0])] + Lower(s[1..])
  }

  /** `s.replace(from, to)` for single characters. */
  function ReplaceChar(s: string, from: char, to: char): (r: string)
    ensures |r| == |s|
  {
    if s == [] then [] else [if s[0] == from then to else s[0]] + ReplaceChar(s[1..], from, to)
  }

  /** `name.lower().replace(" ", "-")`: the id of an item (getZiyarahId). */
  function Slug(name: string): string
  {
    ReplaceChar(Lower(name), ' ', '-')
  }

  lemma {:induction false} LowerAt(s: string, i: nat)
    requires i < |s|
    ensures Lower(s)[i] == LowerChar(s[i])
  {
    if i > 0 { LowerAt(s[1..], i - 1); }
  }

  lemma {:induction false} ReplaceCharAt(s: string, from: char, to: char, i: nat)
    requires i < |s|
    ensures ReplaceChar(s, from, to)[i] == if s[i] == from then to else s[i]
  {
    if i > 0 { ReplaceCharAt(s[1..], from, to, i - 1); }
  }

  /** The slug has the name's length; a space becomes '-', every other character
      becomes its lower-case form. */
  lemma SlugAt(name: string, i: nat)
    requires i < |name|
    ensures |Slug(name)| == |name|
    ensures Slug(name)[i] == if name[i] == ' ' then '-' else LowerChar(name[i])
  {
    LowerAt(name, i);
    ReplaceCharAt(Lower(name), ' ', '-', i);
  }

  /** A slug contains no space, no upper-case ASCII letter, and slugging it
      again changes nothing. */
  lemma SlugNormalForm(name: string)
    ensures ' ' !in Slug(name)
    ensures forall i :: 0 <= i < |Slug(name)| ==> !('A' <= Slug(name)[i] <= 'Z')
    ensures Slug(Slug(name)) == Slug(name)
  {
    var s := Slug(name);
    forall i | 0 <= i < |s| ensures s[i] != ' ' && !('A' <= s[i] <= 'Z') && Slug(s)[i] == s[i] {
      SlugAt(name, i);
      SlugAt(s, i);
    }
  }

  /** `s.startswith(p)` */
  predicate StartsWith(s: string, p: string)
  {
    |p| <= |s| && s[..|p|] == p
  }

  /** `any(s.startswith(p) for p in ps)` */
  predicate StartsWithAny(s: string, ps: seq<string>)
  {
    exists i :: 0 <= i < |ps| && StartsWith(s, ps[i])
  }

  /** Python's `a <= b` on strings: lexicographic by code point. */
  predicate LexLe(a: string, b: string)
  {
    if a == [] then true
    else if b == [] then false
    else if a[0] != b[0] then a[0] < b[0]
    else LexLe(a[1..], b[1..])
  }

  lemma {:induction false} LexLeReflexive(a: string)
    ensures LexLe(a, a)
  {
    if a != [] { LexLeReflexive(a[1..]); }
  }

  lemma {:induction false} LexLeTotal(a: string, b: string)
    ensures LexLe(a, b) || LexLe(b, a)
  {
    if a != [] && b != [] && a[0] == b[0] { LexLeTotal(a[1..], b[1..]); }
  }

  lemma {:induction false} LexLeAntisymmetric(a: string, b: string)
    requires LexLe(a, b) && LexLe(b, a)
    ensures a == b
  {
    if a != [] && b != [] {
      LexLeAntisymmetric(a[1..], b[1..]);
      assert a == [a[0]] + a[1..] && b == [b[0]] + b[1..];
    }
  }

  lemma {:induction false} LexLeTransitive(a: string, b: string, c: string)
    requires LexLe(a, b) && LexLe(b, c)
    ensures LexLe(a, c)
  {
    if a != [] && b != [] && c != [] && a[0] == b[0] && b[0] == c[0] {
      LexLeTransitive(a[1..], b[1..], c[1..]);
    }
  }

  // ---------------------------------------------------------------- numbers

  /** `str(n)` for a non-negative integer: its decimal digits, without leading
      zeros. */
  function NatToString(n: nat): (r: string)
    ensures r != [] && forall i :: 0 <= i < |r| ==> '0' <= r[i] <= '9'
    ensures |r| > 1 ==> r[0] != '0'
    decreases n
  {
    (if n < 10 then "" else NatToString(n / 10)) + [('0' as int + n % 10) as char]
  }

  /** `str(n)` for any integer: a negative one is written with a leading "-". */
  function IntToString(n: int): string
  {
    if n < 0 then "-" + NatToString(-n) else NatToString(n)
  }

  /** The number a string of decimal digits denotes. */
  function DigitsValue(s: string): nat
    requires forall i :: 0 <= i < |s| ==> '0' <= s[i] <= '9'
  {
    if s == [] then 0 else 10 * DigitsValue(s[..|s| - 1]) + (s[|s| - 1] as int - '0' as int)
  }

  /** Reading the digits back gives the number. */
  lemma {:induction false} NatToStringValue(n: nat)
    ensures DigitsValue(NatToString(n)) == n
    decreases n
  {
    var r := NatToString(n);
    if n >= 10 {
      NatToStringValue(n / 10);
      assert r[..|r| - 1] == NatToString(n / 10);
    } else {
      assert r[..|r| - 1] == "";
    }
  }

  lemma NatToStringInjective(a: nat, b: nat)
    requires NatToString(a) == NatToString(b)
    ensures a == b
  {
    NatToStringValue(a);
    NatToStringValue(b);
  }

  /** Different integers are written differently. */
  lemma IntToStringInjective(a: int, b: int)
    requires IntToString(a) == IntToString(b)
    ensures a == b
  {
    var sa, sb := IntToString(a), IntToString(b);
    if a < 0 && b < 0 {
      assert sa[1..] == NatToString(-a) && sb[1..] == NatToString(-b);
      NatToStringInjective(-a, -b);
    } else if a >= 0 && b >= 0 {
      NatToStringInjective(a, b);
    }
  }
}
