/** The two syntactic checks every handler runs on its input:
    `isValidEmail` (a fixed regular expression) and `isValidPassword`
    (a length bound). */
module Validation {

  /** The characters matched by the JavaScript regular-expression class `\s`. */
  predicate IsWhitespace(c: char) {
    var n := c as int;
    n == 0x09 || n == 0x0A || n == 0x0B || n == 0x0C || n == 0x0D || n == 0x20 ||
    n == 0xA0 || n == 0x1680 || (0x2000 <= n <= 0x200A) ||
    n == 0x2028 || n == 0x2029 || n == 0x202F || n == 0x205F || n == 0x3000 || n == 0xFEFF
  }

  /** A character of the class `[^\s@]`. */
  predicate IsWordChar(c: char) {
    !IsWhitespace(c) && c != '@'
  }

  /** A string matched by `[^\s@]+`. */
  predicate IsWord(s: string) {
    |s| > 0 && forall k :: 0 <= k < |s| ==> IsWordChar(s[k])
  }

  /** `isValidEmail`: the whole string matches `^[^\s@]+@[^\s@]+\.[^\s@]+$`,
      i.e. it splits at an `@` (index i) and a later `.` (index j) into three
      non-empty words. */
  predicate IsValidEmail(s: string) {
    exists i, j | 0 < i < |s| && i + 1 < j && j + 1 < |s| ::
      s[i] == '@' && s[j] == '.' && IsWord(s[..i]) && IsWord(s[i + 1..j]) && IsWord(s[j + 1..])
  }

  const MinPasswordLength := 6
  const MaxPasswordLength := 20

  /** `isValidPassword`: the length bound actually enforced (6 to 20), which is
      not the 8 to 20 that the handlers' error message announces. */
  predicate IsValidPassword(s: string)
    ensures IsValidPassword(s) <==> 6 <= |s| <= 20
    ensures |s| == 6 || |s| == 7 ==> IsValidPassword(s)
  {
    MinPasswordLength <= |s| <= MaxPasswordLength
  }

  // ---------------------------------------------------------------------------
  // An independent description of the accepted e-mail addresses

  function CountOf(s: string, c: char): (n: nat)
    ensures n <= |s|
  {
    if s == [] then 0 else (if s[0] == c then 1 else 0) + CountOf(s[1..], c)
  }

  predicate NoWhitespace(s: string) {
    forall k :: 0 <= k < |s| ==> !IsWhitespace(s[k])
  }

  /** The domain part holds a `.` that is neither its first nor its last character. */
  predicate HasInnerDot(d: string) {
    exists k :: 0 < k < |d| - 1 && d[k] == '.'
  }

  /** The shape the regular expression accepts, stated without it: no
      whitespace, exactly one `@`, something before it, and an inner dot after it. */
  predicate EmailShape(s: string) {
    && NoWhitespace(s)
    && CountOf(s, '@') == 1
    && forall i :: 0 <= i < |s| && s[i] == '@' ==> 0 < i && HasInnerDot(s[i + 1..])
  }

  lemma {:induction false} CountOfAppend(a: string, b: string, c: char)
    ensures CountOf(a + b, c) == CountOf(a, c) + CountOf(b, c)
  {
    if a == [] {
      assert a + b == b;
    } else {
      assert (a + b)[1..] == a[1..] + b;
      CountOfAppend(a[1..], b, c);
    }
  }

  lemma {:induction false} CountOfZero(s: string, c: char)
    ensures CountOf(s, c) == 0 <==> forall k :: 0 <= k < |s| ==> s[k] != c
  {
    if s != [] {
      CountOfZero(s[1..], c);
      assert forall k :: 1 <= k < |s| ==> s[k] == s[1..][k - 1];
    }
  }

  /** Splitting a string around one of its positions. */
  lemma SplitAt(s: string, i: int)
    requires 0 <= i < |s|
    ensures s == s[..i] + [s[i]] + s[i + 1..]
  {
  }

  /** Exactly one `@`, at position i. */
  lemma {:induction false} OneAt(s: string, i: int)
    requires 0 <= i < |s| && s[i] == '@'
    ensures CountOf(s, '@') == 1 <==> forall k :: 0 <= k < |s| && k != i ==> s[k] != '@'
  {
    SplitAt(s, i);
    CountOfAppend(s[..i] + [s[i]], s[i + 1..], '@');
    CountOfAppend(s[..i], [s[i]], '@');
    assert CountOf([s[i]], '@') == 1;
    CountOfZero(s[..i], '@');
    CountOfZero(s[i + 1..], '@');
    forall k | 0 <= k < |s| && k != i
      ensures s[k] == if k < i then s[..i][k] else s[i + 1..][k - i - 1]
    {
    }
  }

  lemma RegexImpliesShape(s: string)
    requires IsValidEmail(s)
    ensures EmailShape(s)
  {
    var i, j :| 0 < i < |s| && i + 1 < j && j + 1 < |s| &&
      s[i] == '@' && s[j] == '.' && IsWord(s[..i]) && IsWord(s[i + 1..j]) && IsWord(s[j + 1..]);
    forall k | 0 <= k < |s| && k != i
      ensures IsWordChar(s[k])
    {
      if k < i {
        assert s[k] == s[..i][k];
      } else if k < j {
        assert s[k] == s[i + 1..j][k - i - 1];
      } else if k > j {
        assert s[k] == s[j + 1..][k - j - 1];
      }
    }
    OneAt(s, i);
    var d := s[i + 1..];
    assert d[j - i - 1] == '.';
    assert HasInnerDot(d);
  }

  lemma ShapeImpliesRegex(s: string)
    requires EmailShape(s)
    ensures IsValidEmail(s)
  {
    CountOfZero(s, '@');
    var i :| 0 <= i < |s| && s[i] == '@';
    OneAt(s, i);
    var d := s[i + 1..];
    var k :| 0 < k < |d| - 1 && d[k] == '.';
    var j := i + 1 + k;
    assert s[j] == '.';
    var local, mid, top := s[..i], s[i + 1..j], s[j + 1..];
    assert IsWord(local) by {
      forall m | 0 <= m < |local| ensures IsWordChar(local[m]) {
        assert local[m] == s[m];
      }
    }
    assert IsWord(mid) by {
      forall m | 0 <= m < |mid| ensures IsWordChar(mid[m]) {
        assert mid[m] == s[i + 1 + m];
      }
    }
    assert IsWord(top) by {
      forall m | 0 <= m < |top| ensures IsWordChar(top[m]) {
        assert top[m] == s[j + 1 + m];
      }
    }
  }

  /** The regular expression accepts exactly the strings of `EmailShape`. */
  lemma ValidEmailIff(s: string)
    ensures IsValidEmail(s) <==> EmailShape(s)
  {
    if IsValidEmail(s) {
      RegexImpliesShape(s);
    }
    if EmailShape(s) {
      ShapeImpliesRegex(s);
    }
  }

  /** The address of the documented registration scenario passes. */
  lemma AcceptsPlainAddress()
    ensures IsValidEmail("a@b.com")
  {
    var s := "a@b.com";
    assert s[1] == '@' && s[3] == '.';
    assert IsWord(s[..1]) && IsWord(s[2..3]) && IsWord(s[4..]) by {
      assert s[..1][0] == 'a' && s[2..3][0] == 'b';
      assert forall k :: 0 <= k < |s[4..]| ==> s[4..][k] == s[4 + k];
    }
  }

  /** Without a dot after the `@` the expression fails. */
  lemma RefusesDomainWithoutDot()
    ensures !IsValidEmail("a@bcom")
  {
    ValidEmailIff("a@bcom");
  }

  /** Whitespace anywhere makes the expression fail. */
  lemma RefusesWhitespace()
    ensures !IsValidEmail("a b@c.com")
  {
    ValidEmailIff("a b@c.com");
    assert "a b@c.com"[1] == ' ';
  }

  /** Three concrete answers of the expression. */
  lemma EmailExamples()
    ensures IsValidEmail("a@b.com")
    ensures !IsValidEmail("a@bcom")
    ensures !IsValidEmail("a b@c.com")
  {
    AcceptsPlainAddress();
    RefusesDomainWithoutDot();
    RefusesWhitespace();
  }
}
