/** String operations of Rust's `str` that the discovery code relies on,
    over `string` (a sequence of Unicode scalar values). Rust indexes strings
    by byte; every cut the discovery code makes is next to an ASCII character,
    so cutting by character index gives the same pieces. */
module Text {

  datatype Option<T> = None | Some(value: T)

  /** Rust's `char::is_whitespace`: the Unicode White_Space property,
      which `str::trim` and `str::split_whitespace` use. */
  predicate IsWhitespace(c: char)
  {
    ('\t' <= c <= '\r') || c == ' ' || c == '\U{85}' || c == '\U{A0}' ||
    c == '\U{1680}' || ('\U{2000}' <= c <= '\U{200A}') || c == '\U{2028}' ||
    c == '\U{2029}' || c == '\U{202F}' || c == '\U{205F}' || c == '\U{3000}'
  }

  predicate IsAsciiDigit(c: char)
  {
    '0' <= c <= '9'
  }

  predicate AllWhitespace(s: string)
  {
    forall i :: 0 <= i < |s| ==> IsWhitespace(s[i])
  }

  predicate NoWhitespace(s: string)
  {
    forall i :: 0 <= i < |s| ==> !IsWhitespace(s[i])
  }

  // ---------------------------------------------------------------------
  // rfind / find of a single character

  /** `str::rfind(c)`: the index of the last occurrence of `c`, if any. */
  function FindLast(s: string, c: char): (r: Option<nat>)
    ensures r.None? <==> c !in s
    ensures r.Some? ==> r.value < |s| && s[r.value] == c && c !in s[r.value + 1..]
  {
    if s == [] then None
    else if s[|s| - 1] == c then Some(|s| - 1)
    else
      var init := s[..|s| - 1];
      var r := FindLast(init, c);
      assert c in s <==> c in init by {
        assert s == init + [s[|s| - 1]];
      }
      assert r.Some? ==> c !in s[r.value + 1..] by {
        if r.Some? {
          assert s[r.value + 1..] == init[r.value + 1..] + [s[|s| - 1]];
        }
      }
      r
  }

  /** The last occurrence is the only one with nothing equal to `c` after it. */
  lemma FindLastAt(s: string, c: char, i: nat)
    requires i < |s| && s[i] == c && c !in s[i + 1..]
    ensures FindLast(s, c) == Some(i)
  {
  }

  /** `str::find(c)`: the index of the first occurrence of `c`, if any. */
  function FindFirst(s: string, c: char): (r: Option<nat>)
    ensures r.None? <==> c !in s
    ensures r.Some? ==> r.value < |s| && s[r.value] == c && c !in s[..r.value]
  {
    if s == [] then None
    else if s[0] == c then Some(0)
    else
      var r := FindFirst(s[1..], c);
      assert s == [s[0]] + s[1..];
      assert r.Some? ==> s[..r.value + 1] == [s[0]] + s[1..][..r.value];
      if r.Some? then Some(r.value + 1) else None
  }

  lemma FindFirstAt(s: string, c: char, i: nat)
    requires i < |s| && s[i] == c && c !in s[..i]
    ensures FindFirst(s, c) == Some(i)
  {
  }

  // ---------------------------------------------------------------------
  // trim

  /** `str::trim_end`: the longest prefix that does not end in whitespace. */
  function TrimEnd(s: string): (r: string)
    ensures |r| <= |s| && r == s[..|r|]
    ensures AllWhitespace(s[|r|..])
    ensures r == [] || !IsWhitespace(r[|r| - 1])
  {
    if s == [] || !IsWhitespace(s[|s| - 1]) then s
    else
      var init := s[..|s| - 1];
      var r := TrimEnd(init);
      assert AllWhitespace(s[|r|..]) by {
        assert s[|r|..] == init[|r|..] + [s[|s| - 1]];
      }
      r
  }

  /** `str::trim_start`: the longest suffix that does not start with whitespace. */
  function TrimStart(s: string): (r: string)
    ensures |r| <= |s| && r == s[|s| - |r|..]
    ensures AllWhitespace(s[..|s| - |r|])
    ensures r == [] || !IsWhitespace(r[0])
  {
    if s == [] || !IsWhitespace(s[0]) then s
    else
      var t := s[1..];
      var r := TrimStart(t);
      assert r == s[|s| - |r|..] by {
        assert t[|t| - |r|..] == s[|s| - |r|..];
      }
      assert AllWhitespace(s[..|s| - |r|]) by {
        var p := s[..|s| - |r|];
        forall i | 0 <= i < |p| ensures IsWhitespace(p[i]) {
          if i > 0 {
            assert p[i] == t[..|t| - |r|][i - 1];
          }
        }
      }
      r
  }

  /** `str::trim`: drop leading and trailing whitespace. */
  function Trim(s: string): (r: string)
    ensures |r| <= |s|
    ensures r == [] <==> AllWhitespace(s)
    ensures r != [] ==> !IsWhitespace(r[0]) && !IsWhitespace(r[|r| - 1])
    ensures forall c :: c in r ==> c in s
  {
    TrimmedEmpty(s);
    TrimmedChars(s);
    TrimmedSides(s);
    TrimStart(TrimEnd(s))
  }

  lemma TrimmedSides(s: string)
    ensures var r := TrimStart(TrimEnd(s));
      r != [] ==> !IsWhitespace(r[0]) && !IsWhitespace(r[|r| - 1])
  {
    var e := TrimEnd(s);
    var r := TrimStart(e);
    if r != [] {
      assert r[|r| - 1] == e[|e| - 1] by {
        assert r == e[|e| - |r|..];
      }
    }
  }

  lemma TrimmedEmpty(s: string)
    ensures TrimStart(TrimEnd(s)) == [] <==> AllWhitespace(s)
  {
    TrimEndOfWhitespace(s);
    TrimmedToNothing(s, TrimEnd(s), TrimStart(TrimEnd(s)));
  }

  lemma TrimmedChars(s: string)
    ensures forall c :: c in TrimStart(TrimEnd(s)) ==> c in s
  {
    var e := TrimEnd(s);
    SuffixChars(e, TrimStart(e));
    PrefixChars(s, e);
  }

  lemma SuffixChars(s: string, r: string)
    requires |r| <= |s| && r == s[|s| - |r|..]
    ensures forall c :: c in r ==> c in s
  {
    forall c | c in r ensures c in s {
      var j :| 0 <= j < |r| && r[j] == c;
      assert s[|s| - |r| + j] == c;
    }
  }

  lemma PrefixChars(s: string, r: string)
    requires |r| <= |s| && r == s[..|r|]
    ensures forall c :: c in r ==> c in s
  {
    forall c | c in r ensures c in s {
      var j :| 0 <= j < |r| && r[j] == c;
      assert s[j] == c;
    }
  }

  lemma TrimmedToNothing(s: string, e: string, r: string)
    requires e == TrimEnd(s) && r == TrimStart(e)
    ensures r == [] ==> AllWhitespace(s)
  {
    if r == [] {
      assert e[..|e| - |r|] == e;
      assert s == e + s[|e|..];
    }
  }

  lemma {:induction false} TrimEndOfWhitespace(s: string)
    ensures AllWhitespace(s) ==> TrimEnd(s) == []
  {
    if s != [] && AllWhitespace(s) {
      TrimEndOfWhitespace(s[..|s| - 1]);
    }
  }

  /** Trailing whitespace after a text that ends otherwise is what `TrimEnd` drops. */
  lemma {:induction false} TrimEndPadded(x: string, q: string)
    requires x != [] && !IsWhitespace(x[|x| - 1]) && AllWhitespace(q)
    ensures TrimEnd(x + q) == x
  {
    if q == [] {
      assert x + q == x;
    } else {
      assert (x + q)[..|x + q| - 1] == x + q[..|q| - 1];
      TrimEndPadded(x, q[..|q| - 1]);
    }
  }

  /** Leading whitespace before a text that starts otherwise is what `TrimStart` drops. */
  lemma {:induction false} TrimStartPadded(a: string, x: string)
    requires AllWhitespace(a) && (x == [] || !IsWhitespace(x[0]))
    ensures TrimStart(a + x) == x
  {
    if a == [] {
      assert a + x == x;
    } else {
      assert (a + x)[1..] == a[1..] + x;
      TrimStartPadded(a[1..], x);
    }
  }

  /** Trimming removes exactly the surrounding whitespace: whatever padding
      is put around a word whose ends are not whitespace, `Trim` recovers it. */
  lemma TrimPadded(a: string, w: string, b: string)
    requires AllWhitespace(a) && AllWhitespace(b)
    requires w == [] || (!IsWhitespace(w[0]) && !IsWhitespace(w[|w| - 1]))
    ensures Trim(a + w + b) == w
  {
    if w == [] {
      assert a + w + b == a + b;
      assert AllWhitespace(a + b);
      TrimEndOfWhitespace(a + b);
    } else {
      TrimEndPadded(a + w, b);
      TrimStartPadded(a, w);
    }
  }

  // ---------------------------------------------------------------------
  // the last whitespace-delimited word (`split_whitespace().last()`)

  /** Index just past the last whitespace character of `t` (0 when none). */
  function WordStart(t: string): (k: nat)
    ensures k <= |t| && NoWhitespace(t[k..])
    ensures k == 0 || IsWhitespace(t[k - 1])
  {
    if t == [] || IsWhitespace(t[|t| - 1]) then |t|
    else
      var k := WordStart(t[..|t| - 1]);
      assert NoWhitespace(t[k..]) by {
        assert t[k..] == t[..|t| - 1][k..] + [t[|t| - 1]];
      }
      k
  }

  /** The last item of `str::split_whitespace`: the maximal run of
      non-whitespace characters that ends at the last non-whitespace
      character; None when the text is all whitespace. */
  function LastWord(s: string): (r: Option<string>)
    ensures r.None? <==> AllWhitespace(s)
    ensures r.Some? ==>
      var t := TrimEnd(s); var w := r.value;
      && w != [] && NoWhitespace(w)
      && |w| <= |t| && t[|t| - |w|..] == w
      && (|w| == |t| || IsWhitespace(t[|t| - |w| - 1]))
  {
    var t := TrimEnd(s);
    TrimEndEmpty(s);
    if t == [] then None
    else
      LastRun(t);
      Some(t[WordStart(t)..])
  }

  lemma TrimEndEmpty(s: string)
    ensures TrimEnd(s) == [] <==> AllWhitespace(s)
  {
    var t := TrimEnd(s);
    if t != [] {
      assert s[|t| - 1] == t[|t| - 1];
    } else {
      assert s[|t|..] == s;
    }
  }

  /** The run after the last whitespace of a text that does not end in
      whitespace is a nonempty word. */
  lemma LastRun(t: string)
    requires t != [] && !IsWhitespace(t[|t| - 1])
    ensures var w := t[WordStart(t)..];
      && w != [] && NoWhitespace(w)
      && t[|t| - |w|..] == w
      && (|w| == |t| || IsWhitespace(t[|t| - |w| - 1]))
  {
  }

  /** The word found is the one a reader sees: after any text ending in
      whitespace, before any trailing whitespace. */
  lemma LastWordPadded(p: string, w: string, q: string)
    requires w != [] && NoWhitespace(w) && AllWhitespace(q)
    requires p == [] || IsWhitespace(p[|p| - 1])
    ensures LastWord(p + w + q) == Some(w)
  {
    var s := p + w + q;
    var t := TrimEnd(s);
    TrimEndPadded(p + w, q);
    WordStartAfter(p, w);
  }

  lemma {:induction false} WordStartAfter(p: string, w: string)
    requires NoWhitespace(w) && (p == [] || IsWhitespace(p[|p| - 1]))
    ensures WordStart(p + w) == |p|
  {
    if w == [] {
      assert p + w == p;
    } else {
      assert (p + w)[..|p + w| - 1] == p + w[..|w| - 1];
      WordStartAfter(p, w[..|w| - 1]);
    }
  }

  // ---------------------------------------------------------------------
  // substring search (`str::contains(&str)`)

  /** `k` occurs in `s` starting at index `i`. */
  predicate OccursAt(s: string, k: string, i: nat)
  {
    i + |k| <= |s| && s[i..i + |k|] == k
  }

  /** `str::contains`: some occurrence of `k` in `s`, searched left to right. */
  function Contains(s: string, k: string): (b: bool)
    ensures b <==> exists i: nat :: OccursAt(s, k, i)
    decreases |s|
  {
    if |s| < |k| then false
    else if s[..|k|] == k then
      assert OccursAt(s, k, 0);
      true
    else
      var b := Contains(s[1..], k);
      OccursInTail(s, k);
      b
  }

  /** A word holding a character the text does not hold does not occur in it. */
  lemma AbsentCharacter(s: string, k: string, c: char)
    requires c in k && c !in s
    ensures !Contains(s, k)
  {
    var j :| 0 <= j < |k| && k[j] == c;
    forall i: nat ensures !OccursAt(s, k, i) {
      if i + |k| <= |s| {
        assert s[i..i + |k|][j] == s[i + j];
      }
    }
  }

  /** Without an occurrence at index 0, the occurrences are those of the tail. */
  lemma OccursInTail(s: string, k: string)
    requires s != [] && !(|k| <= |s| && s[..|k|] == k)
    ensures (exists i: nat :: OccursAt(s, k, i)) <==> (exists i: nat :: OccursAt(s[1..], k, i))
  {
    forall i: nat | OccursAt(s[1..], k, i) ensures OccursAt(s, k, i + 1) {
      assert s[1..][i..i + |k|] == s[i + 1..i + 1 + |k|];
    }
    forall i: nat | OccursAt(s, k, i) ensures i > 0 && OccursAt(s[1..], k, i - 1) {
      assert s[0..|k|] == s[..|k|];
      assert s[1..][i - 1..i - 1 + |k|] == s[i..i + |k|];
    }
  }

  /** Text around an occurrence never hides it. */
  lemma ContainsWithin(a: string, m: string, b: string, k: string)
    requires Contains(m, k)
    ensures Contains(a + m + b, k)
  {
    var i: nat :| OccursAt(m, k, i);
    var s := a + m + b;
    assert s[|a| + i..|a| + i + |k|] == m[i..i + |k|];
    assert OccursAt(s, k, |a| + i);
  }

  // ---------------------------------------------------------------------
  // lower-casing

  predicate IsAsciiUpper(c: char)
  {
    'A' <= c <= 'Z'
  }

  /** Lower-casing of one character as far as the search for ASCII keywords
      can tell: ASCII capitals and the Kelvin sign (which Unicode lowers to
      ASCII 'k'); every other character is kept. */
  function LowerChar(c: char): (d: char)
    ensures !IsAsciiUpper(d) && d != '\U{212A}'
    ensures !IsAsciiUpper(c) && c != '\U{212A}' ==> d == c
    ensures IsAsciiUpper(c) ==> d as int == c as int + 32
  {
    if IsAsciiUpper(c) then (c as int + 32) as char
    else if c == '\U{212A}' then 'k'
    else c
  }

  /** `str::to_lowercase`, restricted as `LowerChar` says. */
  function ToLower(s: string): (r: string)
    ensures |r| == |s|
    ensures forall i :: 0 <= i < |s| ==> r[i] == LowerChar(s[i])
    ensures IsLower(r)
    ensures forall i :: 0 <= i < |s| ==>
      && (IsAsciiUpper(s[i]) ==> r[i] as int == s[i] as int + 32)
      && (s[i] == '\U{212A}' ==> r[i] == 'k')
      && (!IsAsciiUpper(s[i]) && s[i] != '\U{212A}' ==> r[i] == s[i])
  {
    seq(|s|, i requires 0 <= i < |s| => LowerChar(s[i]))
  }

  /** Text already in lower case (every keyword of the classifier). */
  predicate IsLower(s: string)
  {
    forall i :: 0 <= i < |s| ==> !IsAsciiUpper(s[i]) && s[i] != '\U{212A}'
  }

  lemma ToLowerIsLower(s: string)
    ensures IsLower(ToLower(s))
    ensures IsLower(s) ==> ToLower(s) == s
  {
  }

  lemma ToLowerAppend(a: string, b: string)
    ensures ToLower(a + b) == ToLower(a) + ToLower(b)
  {
  }

  // ---------------------------------------------------------------------
  // lines

  /** Drop one carriage return before a line feed. */
  function StripCr(l: string): (r: string)
  {
    if l != [] && l[|l| - 1] == '\r' then l[..|l| - 1] else l
  }

  /** `str::lines`: split at line feeds, drop a carriage return before each
      line feed, and no empty last line after a final line feed. */
  function Lines(s: string): (ls: seq<string>)
    ensures forall i :: 0 <= i < |ls| ==> '\n' !in ls[i]
    ensures s == [] <==> ls == []
    decreases |s|
  {
    if s == [] then []
    else
      match FindFirst(s, '\n')
      case None => [s]
      case Some(i) => [StripCr(s[..i])] + Lines(s[i + 1..])
  }

  /** Each line followed by a line feed. */
  function Terminated(ls: seq<string>): string
  {
    if ls == [] then [] else ls[0] + "\n" + Terminated(ls[1..])
  }

  /** A text that `Lines` gives back whole: no line feed, and no carriage
      return at its end. */
  predicate IsLine(l: string)
  {
    '\n' !in l && (l == [] || l[|l| - 1] != '\r')
  }

  /** The first line of a text is everything before its first line feed. */
  lemma LinesOfFirst(l: string, t: string)
    requires IsLine(l)
    ensures Lines(l + "\n" + t) == [l] + Lines(t)
  {
    var s := l + "\n" + t;
    assert s[..|l|] == l;
    FindFirstAt(s, '\n', |l|);
    assert s[|l| + 1..] == t;
  }

  /** A carriage return and line feed end a line too, and only that one
      carriage return is dropped. */
  lemma LinesOfCrlf(l: string, t: string)
    requires '\n' !in l
    ensures Lines(l + "\r\n" + t) == [l] + Lines(t)
  {
    var s := l + "\r\n" + t;
    assert s[..|l| + 1] == l + "\r";
    assert '\n' !in s[..|l| + 1];
    FindFirstAt(s, '\n', |l| + 1);
    assert s[|l| + 2..] == t;
  }

  /** A last line without a line ending comes back as it is, carriage
      return included. */
  lemma LastLine(l: string)
    requires l != [] && '\n' !in l
    ensures Lines(l) == [l]
  {
  }

  /** `Lines` splits text written one line per line feed back into its lines. */
  lemma {:induction false} LinesOfTerminated(ls: seq<string>)
    requires forall i :: 0 <= i < |ls| ==> IsLine(ls[i])
    ensures Lines(Terminated(ls)) == ls
  {
    if ls != [] {
      var rest := ls[1..];
      assert forall i :: 0 <= i < |rest| ==> IsLine(rest[i]) by {
        forall i | 0 <= i < |rest| ensures IsLine(rest[i]) {
          assert rest[i] == ls[i + 1];
        }
      }
      LinesOfTerminated(rest);
      assert Lines(Terminated(ls)) == [ls[0]] + rest by {
        assert IsLine(ls[0]);
        LinesOfFirst(ls[0], Terminated(rest));
      }
      assert ls == [ls[0]] + rest;
    }
  }
}
