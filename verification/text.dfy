/** String helpers shared by the frontend and backend models: splitting on a one-character
    separator, joining, trimming, ASCII lower-casing and the code-point order that
    JavaScript's default `sort` applies to strings. Strings are sequences of code points. */
module Text {

  /** `s` begins with `prefix`: a string with a prefix string, or a list of lines with a
      first few lines. */
  predicate StartsWith<T(==)>(s: seq<T>, prefix: seq<T>)
  {
    |prefix| <= |s| && s[..|prefix|] == prefix
  }

  lemma StartsWithAppend(a: string, b: string)
    ensures StartsWith(a + b, a)
  {
    assert (a + b)[..|a|] == a;
  }

  lemma NotStartsWith(s: string, prefix: string)
    requires 0 < |prefix| <= |s| && s[0] != prefix[0]
    ensures !StartsWith(s, prefix)
  {
    assert s[..|prefix|][0] == s[0];
  }

  /** Number of occurrences of `c` in `s`. */
  function CountChar(s: string, c: char): nat
  {
    if |s| == 0 then 0 else (if s[0] == c then 1 else 0) + CountChar(s[1..], c)
  }

  /** `s.split(c)` with a one-character separator, as JavaScript and Python both define it:
      the pieces between separators, empty pieces included; "" splits into [""]. */
  function Split(s: string, c: char): (parts: seq<string>)
    ensures |parts| == CountChar(s, c) + 1
    ensures forall i :: 0 <= i < |parts| ==> c !in parts[i]
  {
    if |s| == 0 then [""]
    else
      var rest := Split(s[1..], c);
      if s[0] == c then [""] + rest
      else [[s[0]] + rest[0]] + rest[1..]
  }

  /** `xs.join(sep)` (JavaScript) and `sep.join(xs)` (Python): neighbours separated by `sep`. */
  function Join(xs: seq<string>, sep: string): string
  {
    if |xs| == 0 then "" else if |xs| == 1 then xs[0] else xs[0] + sep + Join(xs[1..], sep)
  }

  /** Joining the pieces of a split with the same separator gives the string back. */
  lemma {:induction false} JoinSplit(s: string, c: char)
    ensures Join(Split(s, c), [c]) == s
  {
    if |s| > 0 {
      JoinSplit(s[1..], c);
      var rest := Split(s[1..], c);
      assert s == [s[0]] + s[1..];
      if s[0] == c {
        assert ([""] + rest)[1..] == rest;
      } else if |rest| > 1 {
        assert ([[s[0]] + rest[0]] + rest[1..])[1..] == rest[1..];
      }
    }
  }

  /** A string free of the separator splits into itself alone. */
  lemma {:induction false} SplitNoSeparator(a: string, c: char)
    requires c !in a
    ensures Split(a, c) == [a]
  {
    if |a| > 0 {
      SplitNoSeparator(a[1..], c);
      assert a == [a[0]] + a[1..];
    }
  }

  /** A separator-free piece followed by the separator splits off as one piece. */
  lemma {:induction false} SplitAfterPiece(a: string, c: char, rest: string)
    requires c !in a
    ensures Split(a + [c] + rest, c) == [a] + Split(rest, c)
  {
    var s := a + [c] + rest;
    if |a| == 0 {
      assert s[1..] == rest;
    } else {
      assert s[1..] == a[1..] + [c] + rest;
      SplitAfterPiece(a[1..], c, rest);
      assert a == [a[0]] + a[1..];
    }
  }

  /** Splitting a join of separator-free pieces gives the pieces back. */
  lemma {:induction false} SplitJoin(xs: seq<string>, c: char)
    requires |xs| >= 1
    requires forall i :: 0 <= i < |xs| ==> c !in xs[i]
    ensures Split(Join(xs, [c]), c) == xs
  {
    if |xs| == 1 {
      SplitNoSeparator(xs[0], c);
    } else {
      SplitJoin(xs[1..], c);
      SplitAfterPiece(xs[0], c, Join(xs[1..], [c]));
      assert xs == [xs[0]] + xs[1..];
    }
  }

  /** JavaScript white space for `String.prototype.trim`: the WhiteSpace and LineTerminator
      code points of the ECMAScript standard. */
  predicate IsJsSpace(c: char)
  {
    || c == '\t' || c == '\n' || c == '\U{000B}' || c == '\U{000C}' || c == '\r' || c == ' '
    || c == '\U{00A0}' || c == '\U{1680}' || ('\U{2000}' <= c <= '\U{200A}')
    || c == '\U{2028}' || c == '\U{2029}' || c == '\U{202F}' || c == '\U{205F}'
    || c == '\U{3000}' || c == '\U{FEFF}'
  }

  /** Python white space for `str.strip()`: the code points for which `str.isspace` holds. */
  predicate IsPySpace(c: char)
  {
    || ('\t' <= c <= '\r') || ('\U{001C}' <= c <= '\U{001F}') || c == ' '
    || c == '\U{0085}' || c == '\U{00A0}' || c == '\U{1680}' || ('\U{2000}' <= c <= '\U{200A}')
    || c == '\U{2028}' || c == '\U{2029}' || c == '\U{202F}' || c == '\U{205F}' || c == '\U{3000}'
  }

  /** `s` without its leading white space. */
  function TrimStart(s: string, isSpace: char -> bool): (r: string)
    ensures |r| <= |s| && r == s[|s| - |r|..]
    ensures |r| > 0 ==> !isSpace(r[0])
    ensures forall i :: 0 <= i < |s| - |r| ==> isSpace(s[i])
  {
    if |s| > 0 && isSpace(s[0]) then
      var t := TrimStart(s[1..], isSpace);
      assert s[1..][|s| - 1 - |t|..] == s[|s| - |t|..];
      assert forall i :: 1 <= i < |s| - |t| ==> s[i] == s[1..][i - 1];
      t
    else s
  }

  /** `s` without its trailing white space. */
  function TrimEnd(s: string, isSpace: char -> bool): (r: string)
    ensures |r| <= |s| && r == s[..|r|]
    ensures |r| > 0 ==> !isSpace(r[|r| - 1])
    ensures forall i :: |r| <= i < |s| ==> isSpace(s[i])
  {
    if |s| > 0 && isSpace(s[|s| - 1]) then
      var t := TrimEnd(s[..|s| - 1], isSpace);
      assert s[..|s| - 1][..|t|] == s[..|t|];
      assert forall i :: |t| <= i < |s| - 1 ==> s[i] == s[..|s| - 1][i];
      t
    else s
  }

  /** `s` without its leading and trailing white space: it neither starts nor ends with white
      space, and it is empty exactly when `s` is all white space. */
  function Trim(s: string, isSpace: char -> bool): (r: string)
    ensures |r| <= |s|
    ensures |r| > 0 ==> !isSpace(r[0]) && !isSpace(r[|r| - 1])
    ensures r == "" <==> forall i :: 0 <= i < |s| ==> isSpace(s[i])
  {
    TrimEnd(TrimStart(s, isSpace), isSpace)
  }

  /** Trimming introduces no character that `s` lacks. */
  lemma TrimKeepsOut(s: string, isSpace: char -> bool, c: char)
    requires c !in s
    ensures c !in Trim(s, isSpace)
  {
  }

  /** Two white-space classes that agree on every character of `s` trim it alike. */
  lemma {:induction false} TrimAgrees(s: string, p: char -> bool, q: char -> bool)
    requires forall i :: 0 <= i < |s| ==> p(s[i]) == q(s[i])
    ensures Trim(s, p) == Trim(s, q)
  {
    TrimStartAgrees(s, p, q);
    var t := TrimStart(s, p);
    assert forall i :: 0 <= i < |t| ==> t[i] == s[|s| - |t| + i];
    TrimEndAgrees(t, p, q);
  }

  lemma {:induction false} TrimStartAgrees(s: string, p: char -> bool, q: char -> bool)
    requires forall i :: 0 <= i < |s| ==> p(s[i]) == q(s[i])
    ensures TrimStart(s, p) == TrimStart(s, q)
  {
    if |s| > 0 && p(s[0]) {
      TrimStartAgrees(s[1..], p, q);
    }
  }

  lemma {:induction false} TrimEndAgrees(s: string, p: char -> bool, q: char -> bool)
    requires forall i :: 0 <= i < |s| ==> p(s[i]) == q(s[i])
    ensures TrimEnd(s, p) == TrimEnd(s, q)
  {
    if |s| > 0 && p(s[|s| - 1]) {
      TrimEndAgrees(s[..|s| - 1], p, q);
    }
  }

  function LowerChar(c: char): char
  {
    if 'A' <= c <= 'Z' then (c as int + 32) as char else c
  }

  /** Lower-casing restricted to ASCII letters. For the one comparison the system makes,
      against "yes", this agrees with full Unicode lower-casing: no other code point
      lower-cases to 'y', 'e' or 's'. */
  function AsciiLower(s: string): (r: string)
    ensures |r| == |s|
    ensures forall i :: 0 <= i < |s| ==> r[i] == LowerChar(s[i])
  {
    seq(|s|, i requires 0 <= i < |s| => LowerChar(s[i]))
  }

  /** `s.toLowerCase() === 'yes'` / `s.lower() == "yes"`: the invasive-species flag test. */
  predicate IsYes(s: string)
  {
    AsciiLower(s) == "yes"
  }

  /** The flag test accepts exactly the eight capitalisations of "yes". */
  lemma IsYesSpelled(s: string)
    ensures IsYes(s) <==> |s| == 3 && s[0] in "yY" && s[1] in "eE" && s[2] in "sS"
  {
    if |s| == 3 && s[0] in "yY" && s[1] in "eE" && s[2] in "sS" {
      assert AsciiLower(s) == "yes";
    }
    if IsYes(s) {
      assert AsciiLower(s)[0] == 'y' && AsciiLower(s)[1] == 'e' && AsciiLower(s)[2] == 's';
    }
  }

  /** Code-point lexicographic order, as JavaScript's default `sort` compares strings. */
  predicate LexLess(a: string, b: string)
  {
    if |a| == 0 then |b| > 0
    else if |b| == 0 then false
    else a[0] < b[0] || (a[0] == b[0] && LexLess(a[1..], b[1..]))
  }

  lemma {:induction false} LexIrreflexive(a: string)
    ensures !LexLess(a, a)
  {
    if |a| > 0 {
      LexIrreflexive(a[1..]);
    }
  }

  lemma {:induction false} LexTransitive(a: string, b: string, c: string)
    requires LexLess(a, b) && LexLess(b, c)
    ensures LexLess(a, c)
  {
    if |a| > 0 && a[0] == b[0] && b[0] == c[0] {
      LexTransitive(a[1..], b[1..], c[1..]);
    }
  }

  lemma {:induction false} LexTotal(a: string, b: string)
    ensures a == b || LexLess(a, b) || LexLess(b, a)
  {
    if |a| > 0 && |b| > 0 && a[0] == b[0] {
      LexTotal(a[1..], b[1..]);
      if a[1..] == b[1..] {
        assert a == [a[0]] + a[1..] && b == [b[0]] + b[1..];
      }
    }
  }

  lemma LexAsymmetric(a: string, b: string)
    requires LexLess(a, b)
    ensures !LexLess(b, a)
  {
    if LexLess(b, a) {
      LexTransitive(a, b, a);
      LexIrreflexive(a);
    }
  }

  /** Strictly ascending in code-point order: sorted and free of duplicates. */
  predicate StrictlySorted(s: seq<string>)
  {
    forall i, j :: 0 <= i < j < |s| ==> LexLess(s[i], s[j])
  }

  /** Adds `x` to a strictly sorted sequence, keeping it strictly sorted. */
  function InsertSorted(x: string, s: seq<string>): (r: seq<string>)
    requires StrictlySorted(s)
    ensures StrictlySorted(r)
    ensures forall y :: y in r <==> y == x || y in s
  {
    if |s| == 0 then [x]
    else if x == s[0] then s
    else if LexLess(x, s[0]) then
      assert forall j :: 0 < j < |s| ==> LexLess(x, s[j]) by {
        forall j | 0 < j < |s| {
          LexTransitive(x, s[0], s[j]);
        }
      }
      [x] + s
    else
      LexTotal(x, s[0]);
      var tail := InsertSorted(x, s[1..]);
      assert forall y :: y in tail ==> LexLess(s[0], y);
      [s[0]] + tail
  }

  /** A set of strings has one strictly sorted arrangement: sorting the distinct values in any
      order of arrival gives the same sequence. */
  lemma {:induction false} StrictlySortedUnique(a: seq<string>, b: seq<string>)
    requires StrictlySorted(a) && StrictlySorted(b)
    requires forall y :: y in a <==> y in b
    ensures a == b
  {
    assert |a| > 0 ==> a[0] in a && a[0] in b;
    assert |b| > 0 ==> b[0] in b && b[0] in a;
    if |a| > 0 && |b| > 0 {
      assert a[0] in a && b[0] in b;
      if a[0] != b[0] {
        var k :| 0 <= k < |b| && b[k] == a[0];
        var m :| 0 <= m < |a| && a[m] == b[0];
        assert LexLess(b[0], a[0]);
        assert LexLess(a[0], b[0]);
        LexAsymmetric(a[0], b[0]);
      }
      forall y
        ensures y in a[1..] <==> y in b[1..]
      {
        if y in a[1..] {
          var i :| 1 <= i < |a| && a[i] == y;
          assert LexLess(a[0], y);
          LexIrreflexive(y);
          assert y in a;
          var k :| 0 <= k < |b| && b[k] == y;
          assert k != 0;
        }
        if y in b[1..] {
          var i :| 1 <= i < |b| && b[i] == y;
          assert LexLess(b[0], y);
          LexIrreflexive(y);
          assert y in b;
          var k :| 0 <= k < |a| && a[k] == y;
          assert k != 0;
        }
      }
      StrictlySortedUnique(a[1..], b[1..]);
      assert a == [a[0]] + a[1..] && b == [b[0]] + b[1..];
    }
  }
}
