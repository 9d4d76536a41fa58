/**
 * The Python `str` operations the domain analyser relies on, stated over the
 * text of a file decoded as Latin-1: every character of such text is one of
 * the code points 0..255, and the character classes below follow Python's
 * Unicode tables on that range.
 */
module PyStr {

  // ------------------------------------------------------------------ characters

  /** `c.isspace()`: tab to carriage return, the four separators 0x1C..0x1F,
      space, next line (0x85) and no-break space (0xA0). */
  predicate IsSpace(c: char) {
    var n := c as int;
    (9 <= n <= 13) || (28 <= n <= 32) || n == 0x85 || n == 0xA0
  }

  /** `c.isprintable()`: every Latin-1 character except the controls
      (0x00..0x1F, 0x7F..0x9F), the no-break space 0xA0 and the soft hyphen 0xAD. */
  predicate IsPrintable(c: char) {
    var n := c as int;
    (0x20 <= n <= 0x7E) || (0xA1 <= n <= 0xAC) || 0xAE <= n
  }

  /** The Latin-1 characters that `str.lower` changes: A..Z and À..Þ except ×. */
  predicate IsUpper(c: char) {
    var n := c as int;
    (0x41 <= n <= 0x5A) || (0xC0 <= n <= 0xDE && n != 0xD7)
  }

  /** `c.lower()` on one Latin-1 character. */
  function Lower(c: char): (r: char)
    ensures !IsUpper(r)
    ensures !IsUpper(c) ==> r == c
    ensures IsSpace(r) == IsSpace(c) && IsPrintable(r) == IsPrintable(c)
  {
    if IsUpper(c) then (c as int + 32) as char else c
  }

  lemma LowerIdempotent(c: char)
    ensures Lower(Lower(c)) == Lower(c)
  {
  }

  // ------------------------------------------------------------- whole strings

  /** `s.lower()` */
  function LowerStr(s: string): (r: string)
    ensures |r| == |s|
    ensures forall c :: c in r ==> !IsUpper(c)
    ensures forall i :: 0 <= i < |s| && !IsUpper(s[i]) ==> r[i] == s[i]
  {
    seq(|s|, i requires 0 <= i < |s| => Lower(s[i]))
  }

  /** `s.startswith(p)` */
  predicate StartsWith(s: string, p: string) {
    |p| <= |s| && s[..|p|] == p
  }

  /** Starting with a one-character string is a test on the first character. */
  lemma StartsWithChar(s: string, c: char)
    ensures StartsWith(s, [c]) <==> s != [] && s[0] == c
  {
    if s != [] && s[0] == c {
      assert s[..1] == [c];
    }
  }

  /** `s.endswith(p)` */
  predicate EndsWith(s: string, p: string) {
    |p| <= |s| && s[|s| - |p|..] == p
  }

  /** An ending of an ending of `s` is an ending of `s`. */
  lemma EndsWithTransitive(s: string, t: string, u: string)
    requires EndsWith(s, t) && EndsWith(t, u)
    ensures EndsWith(s, u)
  {
    assert s[|s| - |u|..] == s[|s| - |t|..][|t| - |u|..];
  }

  /** `p in s`: `p` occurs in `s` as a contiguous piece, searched left to right. */
  predicate Contains(s: string, p: string) {
    StartsWith(s, p) || (s != [] && Contains(s[1..], p))
  }

  /** `Contains` agrees with the positional reading of substring occurrence. */
  lemma {:induction false} ContainsAt(s: string, p: string)
    ensures Contains(s, p) <==> exists i, j :: 0 <= i && j == i + |p| && j <= |s| && s[i..j] == p
  {
    if s != [] {
      ContainsAt(s[1..], p);
      if StartsWith(s, p) {
        assert s[0..|p|] == p;
      } else if Contains(s[1..], p) {
        var i, j :| 0 <= i && j == i + |p| && j <= |s[1..]| && s[1..][i..j] == p;
        assert s[i + 1..j + 1] == p;
      }
      if exists i, j :: 0 <= i && j == i + |p| && j <= |s| && s[i..j] == p {
        var i, j :| 0 <= i && j == i + |p| && j <= |s| && s[i..j] == p;
        if i == 0 {
          assert StartsWith(s, p);
        } else {
          assert s[1..][i - 1..j - 1] == p;
        }
      }
    } else if p == [] {
      assert s[0..0] == p;
    }
  }

  /** `any(k in s for k in keys)`, trying the keys in order. */
  predicate ContainsAny(s: string, keys: seq<string>) {
    keys != [] && (Contains(s, keys[0]) || ContainsAny(s, keys[1..]))
  }

  /** Some key occurs in `s`. */
  lemma {:induction false} ContainsAnyIff(s: string, keys: seq<string>)
    ensures ContainsAny(s, keys) <==> exists k :: k in keys && Contains(s, k)
  {
    if keys != [] {
      ContainsAnyIff(s, keys[1..]);
      if exists k :: k in keys && Contains(s, k) {
        var k :| k in keys && Contains(s, k);
        if k != keys[0] {
          assert k in keys[1..];
        }
      }
      if ContainsAny(s, keys[1..]) {
        var k :| k in keys[1..] && Contains(s, k);
        assert k in keys;
      }
      assert keys[0] in keys;
    }
  }

  /** `any(s.endswith(t) for t in ends)`, trying the endings in order. */
  predicate EndsWithAny(s: string, ends: seq<string>) {
    ends != [] && (EndsWith(s, ends[0]) || EndsWithAny(s, ends[1..]))
  }

  /** Some ending ends `s`. */
  lemma {:induction false} EndsWithAnyIff(s: string, ends: seq<string>)
    ensures EndsWithAny(s, ends) <==> exists t :: t in ends && EndsWith(s, t)
  {
    if ends != [] {
      EndsWithAnyIff(s, ends[1..]);
      if exists t :: t in ends && EndsWith(s, t) {
        var t :| t in ends && EndsWith(s, t);
        if t != ends[0] {
          assert t in ends[1..];
        }
      }
      if EndsWithAny(s, ends[1..]) {
        var t :| t in ends[1..] && EndsWith(s, t);
        assert t in ends;
      }
      assert ends[0] in ends;
    }
  }

  /** `s.isspace()`: non-empty and made of whitespace only. */
  predicate IsAllSpace(s: string) {
    s != [] && forall c :: c in s ==> IsSpace(c)
  }

  /** `s[:n]` */
  function Take(s: string, n: nat): (r: string)
    ensures |r| == if |s| <= n then |s| else n
    ensures r == s[..|r|]
    ensures |s| <= n ==> r == s
  {
    if |s| <= n then s else s[..n]
  }

  /** `s.lstrip()` */
  function StripLeft(s: string): (r: string)
    ensures |r| <= |s| && r == s[|s| - |r|..]
    ensures r == [] || !IsSpace(r[0])
    ensures forall i :: 0 <= i < |s| - |r| ==> IsSpace(s[i])
  {
    if s != [] && IsSpace(s[0]) then StripLeft(s[1..]) else s
  }

  /** `s.rstrip()` */
  function StripRight(s: string): (r: string)
    ensures |r| <= |s| && r == s[..|r|]
    ensures r == [] || !IsSpace(r[|r| - 1])
    ensures forall i :: |r| <= i < |s| ==> IsSpace(s[i])
  {
    if s != [] && IsSpace(s[|s| - 1]) then StripRight(s[..|s| - 1]) else s
  }

  /** `s.strip()`: empty exactly when `s` is blank; otherwise it starts and
      ends with a non-whitespace character. */
  function Strip(s: string): (r: string)
    ensures r == [] <==> forall i :: 0 <= i < |s| ==> IsSpace(s[i])
    ensures r != [] ==> !IsSpace(r[0]) && !IsSpace(r[|r| - 1])
    ensures forall c :: c in r ==> c in s
  {
    StripBlank(s);
    StripRight(StripLeft(s))
  }

  /** `s.strip()` is the piece of `s` that starts after the leading
      whitespace, and only whitespace follows it. */
  lemma StripPiece(s: string) returns (k: nat)
    ensures k + |Strip(s)| <= |s|
    ensures Strip(s) == s[k..k + |Strip(s)|]
    ensures forall i :: 0 <= i < k ==> IsSpace(s[i])
    ensures forall i :: k + |Strip(s)| <= i < |s| ==> IsSpace(s[i])
  {
    var l := StripLeft(s);
    k := |s| - |l|;
    PieceOfSuffix(s, l, StripRight(l));
  }

  /** A prefix of a suffix of `s` is a piece of `s`; whitespace after the
      prefix in the suffix is whitespace in `s`. */
  lemma PieceOfSuffix(s: string, l: string, r: string)
    requires |l| <= |s| && l == s[|s| - |l|..]
    requires |r| <= |l| && r == l[..|r|]
    requires forall i :: |r| <= i < |l| ==> IsSpace(l[i])
    ensures |s| - |l| + |r| <= |s|
    ensures r == s[|s| - |l|..|s| - |l| + |r|]
    ensures forall i :: |s| - |l| + |r| <= i < |s| ==> IsSpace(s[i])
  {
    var k := |s| - |l|;
    forall i | k + |r| <= i < |s|
      ensures IsSpace(s[i])
    {
      assert s[i] == l[i - k];
    }
  }

  lemma StripBlank(s: string)
    ensures var l := StripLeft(s);
      && (StripRight(l) == [] <==> forall i :: 0 <= i < |s| ==> IsSpace(s[i]))
      && (forall c :: c in StripRight(l) ==> c in s)
  {
    StripLeftBlank(s);
    var l := StripLeft(s);
    StripRightBlank(l);
    SuffixChars(s, l);
    PrefixChars(l, StripRight(l));
  }

  lemma StripLeftBlank(s: string)
    ensures StripLeft(s) == [] <==> forall i :: 0 <= i < |s| ==> IsSpace(s[i])
  {
    var l := StripLeft(s);
    if l != [] {
      assert s[|s| - |l|] == l[0];
    }
  }

  lemma StripRightBlank(l: string)
    requires l == [] || !IsSpace(l[0])
    ensures StripRight(l) == [] <==> l == []
  {
    if l != [] {
      assert !IsSpace(l[0]);
    }
  }

  lemma SuffixChars(s: string, l: string)
    requires |l| <= |s| && l == s[|s| - |l|..]
    ensures forall c :: c in l ==> c in s
  {
    forall c | c in l
      ensures c in s
    {
      var k :| 0 <= k < |l| && l[k] == c;
      assert s[|s| - |l| + k] == c;
    }
  }

  lemma PrefixChars(l: string, r: string)
    requires |r| <= |l| && r == l[..|r|]
    ensures forall c :: c in r ==> c in l
  {
    forall c | c in r
      ensures c in l
    {
      var k :| 0 <= k < |r| && r[k] == c;
      assert l[k] == c;
    }
  }

  /** The longest prefix of `s` that holds no whitespace character. */
  function TakeUntilSpace(s: string): (r: string)
    ensures |r| <= |s| && r == s[..|r|]
    ensures forall c :: c in r ==> !IsSpace(c)
    ensures |r| < |s| ==> IsSpace(s[|r|])
  {
    if s == [] || IsSpace(s[0]) then [] else [s[0]] + TakeUntilSpace(s[1..])
  }

  /** `s.split()[0]`, the first whitespace-separated word; Python raises
      IndexError on a blank string, hence the precondition. */
  function FirstWord(s: string): (r: string)
    requires exists i :: 0 <= i < |s| && !IsSpace(s[i])
    ensures r != []
    ensures forall c :: c in r ==> !IsSpace(c)
  {
    var l := StripLeft(s);
    assert l != [] by {
      var i :| 0 <= i < |s| && !IsSpace(s[i]);
      assert !(i < |s| - |l|);
    }
    TakeUntilSpace(l)
  }

  /** The first word is the run of non-whitespace characters that follows
      the leading whitespace of `s`. */
  lemma FirstWordPiece(s: string) returns (k: nat)
    requires exists i :: 0 <= i < |s| && !IsSpace(s[i])
    ensures k + |FirstWord(s)| <= |s|
    ensures FirstWord(s) == s[k..k + |FirstWord(s)|]
    ensures forall i :: 0 <= i < k ==> IsSpace(s[i])
    ensures k + |FirstWord(s)| < |s| ==> IsSpace(s[k + |FirstWord(s)|])
  {
    var l := StripLeft(s);
    var r := TakeUntilSpace(l);
    assert FirstWord(s) == r;
    k := |s| - |l|;
    WordOfSuffix(s, l, r);
  }

  /** A prefix of a suffix of `s` is a piece of `s`; the character after the
      prefix in the suffix is the character after the piece in `s`. */
  lemma WordOfSuffix(s: string, l: string, r: string)
    requires |l| <= |s| && l == s[|s| - |l|..]
    requires |r| <= |l| && r == l[..|r|]
    requires |r| < |l| ==> IsSpace(l[|r|])
    ensures |s| - |l| + |r| <= |s|
    ensures r == s[|s| - |l|..|s| - |l| + |r|]
    ensures |s| - |l| + |r| < |s| ==> IsSpace(s[|s| - |l| + |r|])
  {
    if |r| < |l| {
      assert s[|s| - |l| + |r|] == l[|r|];
    }
  }

  /** `s.split(sep)[0]`: the part of `s` before the first `sep`, all of `s` if none. */
  function BeforeFirst(s: string, sep: char): (r: string)
    ensures |r| <= |s| && r == s[..|r|]
    ensures sep !in r
    ensures |r| < |s| ==> s[|r|] == sep
  {
    if s == [] || s[0] == sep then [] else [s[0]] + BeforeFirst(s[1..], sep)
  }

  /** `s.replace('www.', '')`: Python scans left to right and removes each
      occurrence it finds, resuming after it, so occurrences never overlap
      and the result may hold a `www.` made of the surrounding characters. */
  function RemoveWww(s: string): (r: string)
    ensures |r| <= |s|
    ensures forall c :: c in r ==> c in s
  {
    if s == [] then []
    else if StartsWith(s, "www.") then RemoveWww(s[4..])
    else [s[0]] + RemoveWww(s[1..])
  }

  /** Text with no `www.` in it is left as it is. */
  lemma {:induction false} RemoveWwwNoOccurrence(s: string)
    requires !Contains(s, "www.")
    ensures RemoveWww(s) == s
  {
    if s != [] {
      RemoveWwwNoOccurrence(s[1..]);
    }
  }

  /** One pass is not enough to remove every `www.`: the removal can join the
      characters around an occurrence into a new one. */
  lemma RemoveWwwCanLeaveWww()
    ensures RemoveWww("wwwwww..") == "www."
    ensures Contains(RemoveWww("wwwwww.."), "www.")
  {
    assert "wwwwww.."[..4][3] != "www."[3];
    assert !StartsWith("wwwwww..", "www.");
    assert "wwwww.."[..4][3] != "www."[3];
    assert !StartsWith("wwwww..", "www.");
    assert "wwww.."[..4][3] != "www."[3];
    assert !StartsWith("wwww..", "www.");
    assert StartsWith("www..", "www.");
    assert RemoveWww(".") == "." by {
      assert !StartsWith(".", "www.");
      assert RemoveWww(".")[1..] == RemoveWww([]);
    }
    assert RemoveWww("www..") == ".";
    assert StartsWith("www.", "www.");
  }

  /** `''.join(c for c in s if c.isprintable() and not c.isspace())` */
  function KeepPrintableNonSpace(s: string): (r: string)
    ensures |r| <= |s|
    ensures forall c :: c in r <==> c in s && IsPrintable(c) && !IsSpace(c)
    ensures |s| == 1 ==> r == if IsPrintable(s[0]) && !IsSpace(s[0]) then s else []
  {
    if s == [] then []
    else
      var rest := KeepPrintableNonSpace(s[1..]);
      assert forall c :: c in s <==> c == s[0] || c in s[1..];
      if IsPrintable(s[0]) && !IsSpace(s[0]) then [s[0]] + rest else rest
  }

  /** The filter works character by character, keeping order and
      repetitions: filtering a concatenation concatenates the results. */
  lemma {:induction false} KeepPrintableNonSpaceAppend(a: string, b: string)
    ensures KeepPrintableNonSpace(a + b) == KeepPrintableNonSpace(a) + KeepPrintableNonSpace(b)
  {
    if a == [] {
      assert a + b == b;
    } else {
      var ab := a + b;
      assert ab[0] == a[0] && ab[1..] == a[1..] + b;
      KeepPrintableNonSpaceAppend(a[1..], b);
      KeepPrintableNonSpaceCons(ab);
      KeepPrintableNonSpaceCons(a);
      ConsAppend(if IsPrintable(a[0]) && !IsSpace(a[0]) then [a[0]] else [],
        KeepPrintableNonSpace(a[1..]), KeepPrintableNonSpace(b),
        KeepPrintableNonSpace(a), KeepPrintableNonSpace(ab));
    }
  }

  /** The associativity step of the lemma above, kept apart from the filter. */
  lemma ConsAppend(head: string, x: string, y: string, hx: string, hxy: string)
    requires hx == head + x && hxy == head + (x + y)
    ensures hxy == hx + y
  {
  }

  /** One step of the filter: the first character, if kept, then the rest. */
  lemma KeepPrintableNonSpaceCons(s: string)
    requires s != []
    ensures KeepPrintableNonSpace(s)
      == (if IsPrintable(s[0]) && !IsSpace(s[0]) then [s[0]] else []) + KeepPrintableNonSpace(s[1..])
  {
  }

  // --------------------------------------------------------------- str(n)

  function DigitChar(d: nat): (r: char)
    requires d < 10
    ensures '0' <= r <= '9'
  {
    ('0' as int + d) as char
  }

  /** `str(n)` for a natural number: decimal digits without leading zeros. */
  function NatToString(n: nat): (r: string)
    ensures r != []
    ensures forall i :: 0 <= i < |r| ==> '0' <= r[i] <= '9'
    ensures (r[0] == '0') == (n == 0)
  {
    if n < 10 then [DigitChar(n)] else NatToString(n / 10) + [DigitChar(n % 10)]
  }

  /** The value of a string of decimal digits, read as `int(s)` does. */
  function ParseDigits(s: string): nat
    requires forall i :: 0 <= i < |s| ==> '0' <= s[i] <= '9'
  {
    if s == [] then 0 else ParseDigits(s[..|s| - 1]) * 10 + (s[|s| - 1] as int - '0' as int)
  }

  /** `int(str(n)) == n`: the line number written into a rejection entry is
      the line number. */
  lemma {:induction false} ParseNatToString(n: nat)
    ensures ParseDigits(NatToString(n)) == n
  {
    if n >= 10 {
      ParseNatToString(n / 10);
      var s := NatToString(n);
      assert s[..|s| - 1] == NatToString(n / 10);
    }
  }

  // ------------------------------------------------------------ ordering

  /** `a < b` on Python strings: lexicographic on code points, a proper
      prefix before the longer string. */
  predicate LexLess(a: string, b: string) {
    b != [] && (a == [] || a[0] < b[0] || (a[0] == b[0] && LexLess(a[1..], b[1..])))
  }

  lemma {:induction false} LexLessIrreflexive(a: string)
    ensures !LexLess(a, a)
  {
    if a != [] {
      LexLessIrreflexive(a[1..]);
    }
  }

  lemma {:induction false} LexLessTransitive(a: string, b: string, c: string)
    requires LexLess(a, b) && LexLess(b, c)
    ensures LexLess(a, c)
  {
    if a != [] && a[0] == b[0] && b[0] == c[0] {
      LexLessTransitive(a[1..], b[1..], c[1..]);
    }
  }

  lemma {:induction false} LexLessTotal(a: string, b: string)
    ensures a == b || LexLess(a, b) || LexLess(b, a)
  {
    if a != [] && b != [] && a[0] == b[0] {
      LexLessTotal(a[1..], b[1..]);
      if a[1..] == b[1..] {
        assert a == [a[0]] + a[1..] && b == [b[0]] + b[1..];
      }
    }
  }
}
