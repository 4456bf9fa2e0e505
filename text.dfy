/** The three JavaScript string operations the task list relies on:
    `String.prototype.trim`, `toLowerCase` and `includes`. */
module Text {

  /** ECMAScript WhiteSpace and LineTerminator code points: what `trim` removes. */
  predicate IsSpace(c: char)
  {
    c == '\t' || c == '\n' || c == '\U{B}' || c == '\U{C}' || c == '\r' || c == ' '
    || c == '\U{A0}' || c == '\U{1680}' || ('\U{2000}' <= c <= '\U{200A}')
    || c == '\U{2028}' || c == '\U{2029}' || c == '\U{202F}' || c == '\U{205F}'
    || c == '\U{3000}' || c == '\U{FEFF}'
  }

  /** Drops the leading white space of `s`. */
  function TrimStart(s: string): string
  {
    if s != [] && IsSpace(s[0]) then TrimStart(s[1..]) else s
  }

  /** Drops the trailing white space of `s`. */
  function TrimEnd(s: string): string
  {
    if s != [] && IsSpace(s[|s| - 1]) then TrimEnd(s[..|s| - 1]) else s
  }

  /** `s.trim()`. */
  function Trim(s: string): string
  {
    TrimEnd(TrimStart(s))
  }

  /** `TrimStart` keeps a suffix, drops only white space, and stops at the first other character. */
  lemma {:induction false} TrimStartSpec(s: string)
    ensures |TrimStart(s)| <= |s| && TrimStart(s) == s[|s| - |TrimStart(s)|..]
    ensures forall i :: 0 <= i < |s| - |TrimStart(s)| ==> IsSpace(s[i])
    ensures TrimStart(s) != [] ==> !IsSpace(TrimStart(s)[0])
  {
    if s != [] && IsSpace(s[0]) {
      var tail := s[1..];
      TrimStartSpec(tail);
      var r := TrimStart(tail);
      assert TrimStart(s) == r;
      assert tail[|tail| - |r|..] == s[|s| - |r|..];
      forall i | 1 <= i < |s| - |r| ensures IsSpace(s[i]) {
        assert s[i] == tail[i - 1];
      }
    }
  }

  /** `TrimEnd` keeps a prefix, drops only white space, and stops at the last other character. */
  lemma {:induction false} TrimEndSpec(s: string)
    ensures |TrimEnd(s)| <= |s| && TrimEnd(s) == s[..|TrimEnd(s)|]
    ensures forall i :: |TrimEnd(s)| <= i < |s| ==> IsSpace(s[i])
    ensures TrimEnd(s) != [] ==> !IsSpace(TrimEnd(s)[|TrimEnd(s)| - 1])
  {
    if s != [] && IsSpace(s[|s| - 1]) {
      var init := s[..|s| - 1];
      TrimEndSpec(init);
      var r := TrimEnd(init);
      assert TrimEnd(s) == r;
      assert init[..|r|] == s[..|r|];
      forall i | |r| <= i < |s| - 1 ensures IsSpace(s[i]) {
        assert s[i] == init[i];
      }
    }
  }

  /** `trim` returns the slice of `s` outside of which there is only white space and which neither
      starts nor ends with white space; it is empty exactly when `s` is all white space. */
  lemma TrimSpec(s: string)
    ensures var r := Trim(s);
      (exists k :: OccursAt(s, r, k) && SpaceOutside(s, k, k + |r|))
      && (r != [] ==> !IsSpace(r[0]) && !IsSpace(r[|r| - 1]))
      && (r == [] <==> forall i :: 0 <= i < |s| ==> IsSpace(s[i]))
  {
    var front := TrimStart(s);
    var r := TrimEnd(front);
    assert Trim(s) == r;
    TrimStartSpec(s);
    TrimEndSpec(front);
    assert r == s[|s| - |front|..][..|r|];
    assert OccursAt(s, r, |s| - |front|) && SpaceOutside(s, |s| - |front|, |s| - |front| + |r|);
  }

  /** Trimming a trimmed string changes nothing. */
  lemma TrimIdempotent(s: string)
    ensures Trim(Trim(s)) == Trim(s)
  {
    var r := Trim(s);
    TrimSpec(s);
    if r != [] {
      assert TrimStart(r) == r;
      assert TrimEnd(r) == r;
    }
  }

  /** A draft name is blank exactly when every character of it is white space. */
  lemma BlankIffAllSpace(s: string)
    ensures IsBlank(s) <==> forall i :: 0 <= i < |s| ==> IsSpace(s[i])
  {
    TrimSpec(s);
  }

  /** Among ASCII characters, `trim` removes exactly tab, line feed, vertical tab, form feed,
      carriage return and space; no letter or digit is white space. */
  lemma SpaceAscii(c: char)
    ensures c as int < 0x80 ==>
      (IsSpace(c) <==> c == '\t' || c == '\n' || c == '\U{B}' || c == '\U{C}' || c == '\r' || c == ' ')
    ensures ('a' <= c <= 'z' || 'A' <= c <= 'Z' || '0' <= c <= '9') ==> !IsSpace(c)
  {
  }

  /** Every character of `s` before index `lo` or from index `hi` on is white space. */
  predicate SpaceOutside(s: string, lo: int, hi: int)
  {
    forall i :: 0 <= i < |s| && (i < lo || hi <= i) ==> IsSpace(s[i])
  }

  /** `input.trim() === ""`. */
  predicate IsBlank(s: string)
  {
    Trim(s) == ""
  }

  /** `toLowerCase` on one character; only the ASCII letters are mapped. */
  function LowerChar(c: char): char
  {
    if 'A' <= c <= 'Z' then (c as int + 32) as char else c
  }

  /** `s.toLowerCase()`, character by character. */
  function ToLower(s: string): (r: string)
    ensures |r| == |s|
    ensures forall i :: 0 <= i < |s| ==> !('A' <= r[i] <= 'Z')
    ensures forall i :: 0 <= i < |s| ==> r[i] == s[i] || ('A' <= s[i] <= 'Z' && r[i] as int == s[i] as int + 32)
  {
    seq(|s|, i requires 0 <= i < |s| => LowerChar(s[i]))
  }

  /** Lower-casing a lower-cased string changes nothing. */
  lemma ToLowerIdempotent(s: string)
    ensures ToLower(ToLower(s)) == ToLower(s)
  {
  }

  /** `p` occurs in `s` starting at index `i`. */
  predicate OccursAt(s: string, p: string, i: int)
  {
    0 <= i <= |s| - |p| && s[i..i + |p|] == p
  }

  /** `s.includes(p)`: `p` is a prefix of `s` or of one of its suffixes. */
  predicate Includes(s: string, p: string)
    decreases |s|
  {
    (|p| <= |s| && s[..|p|] == p) || (s != [] && Includes(s[1..], p))
  }

  /** `includes` holds exactly when `p` occurs at some index of `s`. */
  lemma {:induction false} IncludesIffOccurs(s: string, p: string)
    ensures Includes(s, p) <==> exists i :: OccursAt(s, p, i)
    decreases |s|
  {
    if |p| <= |s| && s[..|p|] == p {
      assert OccursAt(s, p, 0);
    } else if s == [] {
      assert forall i :: !OccursAt(s, p, i);
    } else {
      IncludesIffOccurs(s[1..], p);
      if i :| OccursAt(s[1..], p, i) {
        OccursShift(s, p, i);
      }
      if i :| OccursAt(s, p, i) {
        assert i != 0;
        OccursShift(s, p, i - 1);
      }
    }
  }

  /** An occurrence in the tail of `s` is an occurrence in `s`, one index further on. */
  lemma OccursShift(s: string, p: string, i: int)
    requires s != [] && 0 <= i
    ensures OccursAt(s[1..], p, i) <==> OccursAt(s, p, i + 1)
  {
    if 0 <= i <= |s| - 1 - |p| {
      assert s[1..][i..i + |p|] == s[i + 1..i + 1 + |p|];
    }
  }

  /** A string includes nothing longer than itself, and includes every infix of itself. */
  lemma {:induction false} IncludesInfix(a: string, p: string, b: string)
    ensures Includes(a + p + b, p)
    ensures forall q :: Includes(p, q) ==> |q| <= |p|
  {
    assert OccursAt(a + p + b, p, |a|) by {
      assert (a + p + b)[|a|..|a| + |p|] == p;
    }
    IncludesIffOccurs(a + p + b, p);
    forall q | Includes(p, q) ensures |q| <= |p| {
      IncludesIffOccurs(p, q);
    }
  }

  /** Every string includes the empty string. */
  lemma IncludesEmpty(s: string)
    ensures Includes(s, "")
  {
  }
}
