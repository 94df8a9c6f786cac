/**
 * The slice of java.lang the app's own logic relies on: nullable references,
 * and the String operations the screens call (indexOf, substring, contains,
 * trim, toLowerCase, isEmpty, concatenation with a possibly-null message).
 */
module JavaLang {

  /** A Java reference that may be null. */
  datatype Nullable<+T> = Null | NonNull(value: T)

  /** TextUtils.isEmpty: null or of length zero. */
  predicate IsEmptyText(s: Nullable<string>)
  {
    s.Null? || |s.value| == 0
  }

  /** String concatenation with a possibly-null operand, which Java renders as "null". */
  function ConcatNullable(prefix: string, s: Nullable<string>): (r: string)
    ensures s.NonNull? ==> r == prefix + s.value
    ensures s.Null? ==> r == prefix + "null"
  {
    match s
    case Null => prefix + "null"
    case NonNull(v) => prefix + v
  }

  // ---------------------------------------------------------------------------
  // indexOf

  /**
   * String.indexOf(char): the index of the first occurrence of `c`, or -1.
   */
  function IndexOf(s: string, c: char): (r: int)
    ensures -1 <= r < |s|
    ensures r == -1 <==> c !in s
    ensures 0 <= r ==> s[r] == c && forall j :: 0 <= j < r ==> s[j] != c
  {
    if |s| == 0 then -1
    else if s[0] == c then 0
    else
      var k := IndexOf(s[1..], c);
      if k < 0 then -1 else k + 1
  }

  // ---------------------------------------------------------------------------
  // contains

  /** `sub` occurs in `s` starting at index `i`. */
  ghost predicate OccursAt(s: string, sub: string, i: int)
  {
    0 <= i && i + |sub| <= |s| && s[i..i + |sub|] == sub
  }

  /** An occurrence at index 0 is a prefix. */
  lemma OccursAtZero(s: string, sub: string)
    ensures OccursAt(s, sub, 0) <==> sub <= s
  {
    if |sub| <= |s| {
      assert s[0..|sub|] == s[..|sub|];
    }
  }

  /** An occurrence past index 0 is an occurrence in the tail, one index earlier. */
  lemma OccursAtShift(s: string, sub: string, i: int)
    requires 0 < |s| && 1 <= i
    ensures OccursAt(s, sub, i) <==> OccursAt(s[1..], sub, i - 1)
  {
    if i + |sub| <= |s| {
      assert s[1..][i - 1..i - 1 + |sub|] == s[i..i + |sub|];
    }
  }

  /** String.contains(CharSequence). */
  function Contains(s: string, sub: string): (r: bool)
    ensures r <==> exists i :: OccursAt(s, sub, i)
    decreases |s|
  {
    OccursAtZero(s, sub);
    if sub <= s then
      true
    else if |s| == 0 then
      assert forall i :: OccursAt(s, sub, i) ==> i == 0;
      false
    else
      var rest := Contains(s[1..], sub);
      forall i | 1 <= i
        ensures OccursAt(s, sub, i) <==> OccursAt(s[1..], sub, i - 1)
      {
        OccursAtShift(s, sub, i);
      }
      assert rest ==> exists i :: OccursAt(s, sub, i) by {
        if rest {
          var j :| OccursAt(s[1..], sub, j);
          assert OccursAt(s, sub, j + 1);
        }
      }
      rest
  }

  /** Containment is transitive: a text that contains a phrase contains every part of it. */
  lemma {:induction false} ContainsTransitive(s: string, mid: string, sub: string)
    requires Contains(s, mid) && Contains(mid, sub)
    ensures Contains(s, sub)
  {
    var i :| OccursAt(s, mid, i);
    var j :| OccursAt(mid, sub, j);
    assert forall k :: 0 <= k < |mid| ==> s[i + k] == mid[k];
    assert s[i + j..i + j + |sub|] == mid[j..j + |sub|];
    assert OccursAt(s, sub, i + j);
  }

  // ---------------------------------------------------------------------------
  // trim

  /** String.trim removes every character whose code is at most U+0020. */
  predicate IsTrimmable(c: char)
  {
    c <= ' '
  }

  /** `r` is the contiguous part of `s` that starts at index `lo`. */
  ghost predicate IsSliceAt(s: string, r: string, lo: int)
  {
    0 <= lo && lo + |r| <= |s| && s[lo..lo + |r|] == r
  }

  /**
   * `r` is `s` with a blank prefix (before `lo`) and a blank suffix (after
   * `lo + |r|`) removed, and nothing else.
   */
  ghost predicate IsTrimAt(s: string, r: string, lo: int)
  {
    && IsSliceAt(s, r, lo)
    && (forall i :: 0 <= i < lo ==> IsTrimmable(s[i]))
    && (forall i :: lo + |r| <= i < |s| ==> IsTrimmable(s[i]))
  }

  /** A text trim leaves as it is: it neither starts nor ends with a blank. */
  predicate IsTrimmed(r: string)
  {
    0 < |r| ==> !IsTrimmable(r[0]) && !IsTrimmable(r[|r| - 1])
  }

  /**
   * `r` is what trim leaves of `s`: `s` without a blank prefix and a blank
   * suffix, starting and ending with a non-blank unless it is empty.
   */
  ghost predicate IsTrimOf(s: string, r: string)
  {
    && (exists lo :: IsTrimAt(s, r, lo))
    && IsTrimmed(r)
  }

  /** Index of the first character that trim keeps (|s| when there is none). */
  function TrimStart(s: string): (lo: nat)
    ensures lo <= |s|
    ensures forall i :: 0 <= i < lo ==> IsTrimmable(s[i])
    ensures lo < |s| ==> !IsTrimmable(s[lo])
  {
    if |s| == 0 || !IsTrimmable(s[0]) then 0
    else 1 + TrimStart(s[1..])
  }

  /** One past the last character that trim keeps (0 when there is none). */
  function TrimEnd(s: string): (hi: nat)
    ensures hi <= |s|
    ensures forall i :: hi <= i < |s| ==> IsTrimmable(s[i])
    ensures 0 < hi ==> !IsTrimmable(s[hi - 1])
  {
    if |s| == 0 || !IsTrimmable(s[|s| - 1]) then |s|
    else TrimEnd(s[..|s| - 1])
  }

  /** String.trim(). */
  function Trim(s: string): (r: string)
    ensures |r| <= |s|
    ensures |r| == 0 <==> forall i :: 0 <= i < |s| ==> IsTrimmable(s[i])
    ensures 0 < |r| ==> !IsTrimmable(r[0]) && !IsTrimmable(r[|r| - 1])
    ensures exists lo :: IsTrimAt(s, r, lo)
  {
    var lo := TrimStart(s);
    var hi := TrimEnd(s);
    if lo < hi then
      assert IsTrimAt(s, s[lo..hi], lo);
      s[lo..hi]
    else
      assert IsTrimAt(s, [], 0);
      []
  }

  /**
   * Trim is the only way to strip blanks from both ends: any part of `s`
   * left after removing a blank prefix and a blank suffix, and which does not
   * itself start or end with a blank, is `Trim(s)`.
   */
  lemma {:induction false} TrimCharacterised(s: string, r: string, lo: int)
    requires IsTrimAt(s, r, lo)
    requires 0 < |r| ==> !IsTrimmable(r[0]) && !IsTrimmable(r[|r| - 1])
    ensures r == Trim(s)
  {
    if |r| == 0 {
      assert forall i :: 0 <= i < |s| ==> IsTrimmable(s[i]) by {
        forall i | 0 <= i < |s|
          ensures IsTrimmable(s[i])
        {
          if i < lo {
          } else {
            assert lo + |r| <= i;
          }
        }
      }
    } else {
      var hi := lo + |r|;
      assert s[lo] == r[0] && s[hi - 1] == r[|r| - 1];
      assert TrimStart(s) == lo && TrimEnd(s) == hi;
    }
  }

  /** Trimming twice changes nothing. */
  lemma TrimIdempotent(s: string)
    ensures Trim(Trim(s)) == Trim(s)
  {
    var t := Trim(s);
    if |t| > 0 {
      assert TrimStart(t) == 0;
      assert TrimEnd(t) == |t|;
      assert t[0..|t|] == t;
    }
  }

  /** A text with no surrounding blanks is its own trim. */
  lemma TrimOfTrimmed(s: string)
    requires 0 < |s| && !IsTrimmable(s[0]) && !IsTrimmable(s[|s| - 1])
    ensures Trim(s) == s
  {
    assert s[0..|s|] == s;
  }

  // ---------------------------------------------------------------------------
  // length

  /** A character outside the Basic Multilingual Plane takes two UTF-16 code units. */
  predicate IsSupplementary(c: char)
  {
    c as int > 0xFFFF
  }

  /** The UTF-16 code units of one character. */
  function CodeUnits(c: char): (n: nat)
    ensures n == 2 <==> IsSupplementary(c)
    ensures n == 1 <==> !IsSupplementary(c)
  {
    if IsSupplementary(c) then 2 else 1
  }

  /**
   * String.length(): the number of UTF-16 code units, so a character outside
   * the Basic Multilingual Plane counts twice.
   */
  function JavaLength(s: string): (n: nat)
    ensures |s| == 1 ==> n == CodeUnits(s[0])
    ensures |s| <= n <= 2 * |s|
    ensures n == |s| <==> forall i :: 0 <= i < |s| ==> !IsSupplementary(s[i])
    ensures n == 2 * |s| <==> forall i :: 0 <= i < |s| ==> IsSupplementary(s[i])
  {
    if |s| == 0 then 0
    else
      var rest := JavaLength(s[1..]);
      assert forall i :: 1 <= i < |s| ==> s[i] == s[1..][i - 1];
      CodeUnits(s[0]) + rest
  }

  /**
   * Length adds up over concatenation; with the one-character case above this
   * fixes the length of every text as the sum of its characters' code units.
   */
  lemma {:induction false} JavaLengthAppend(a: string, b: string)
    ensures JavaLength(a + b) == JavaLength(a) + JavaLength(b)
    decreases |a|
  {
    if |a| == 0 {
      assert a + b == b;
    } else {
      assert (a + b)[0] == a[0];
      assert (a + b)[1..] == a[1..] + b;
      JavaLengthAppend(a[1..], b);
    }
  }

  // ---------------------------------------------------------------------------
  // toLowerCase

  /** Character.toLowerCase restricted to ASCII letters. */
  function LowerChar(c: char): (r: char)
    ensures !('A' <= r <= 'Z')
    ensures ('A' <= c <= 'Z') || r == c
    ensures 'A' <= c <= 'Z' ==> r as int == c as int + 32
  {
    if 'A' <= c <= 'Z' then (c as int - 'A' as int + 'a' as int) as char else c
  }

  /** String.toLowerCase() with ASCII case mapping. */
  function ToLower(s: string): (r: string)
    ensures |r| == |s|
    ensures forall i :: 0 <= i < |s| ==> r[i] == LowerChar(s[i])
  {
    if |s| == 0 then [] else [LowerChar(s[0])] + ToLower(s[1..])
  }
}
