/**
 * The text normalisation both prompts apply to a line read from standard
 * input: `input.trim().to_lowercase()`.
 */
module Text {

  /** Rust's `char::is_whitespace`: the Unicode White_Space property. */
  predicate IsWhitespace(c: char)
  {
    var n := c as int;
    || 0x09 <= n <= 0x0D || n == 0x20 || n == 0x85 || n == 0xA0 || n == 0x1680
    || 0x2000 <= n <= 0x200A || n == 0x2028 || n == 0x2029 || n == 0x202F
    || n == 0x205F || n == 0x3000
  }

  predicate IsAsciiUpper(c: char)
  {
    'A' <= c <= 'Z'
  }

  /** Lower-case mapping, restricted to ASCII letters: a capital becomes the small letter at the same place in the alphabet. */
  function LowerChar(c: char): (r: char)
    ensures !IsAsciiUpper(r)
    ensures IsAsciiUpper(c) ==> 'a' <= r <= 'z' && r as int - 'a' as int == c as int - 'A' as int
    ensures IsWhitespace(r) <==> IsWhitespace(c)
    ensures !IsAsciiUpper(c) ==> r == c
  {
    if IsAsciiUpper(c) then (c as int + 32) as char else c
  }

  function ToLower(s: string): (r: string)
    ensures |r| == |s|
    ensures forall i :: 0 <= i < |s| ==> r[i] == LowerChar(s[i])
  {
    if s == [] then [] else [LowerChar(s[0])] + ToLower(s[1..])
  }

  /** `str::trim_start`: the suffix left after dropping leading whitespace. */
  function TrimStart(s: string): (r: string)
    ensures |r| <= |s| && r == s[|s| - |r|..]
    ensures forall k :: 0 <= k < |s| - |r| ==> IsWhitespace(s[k])
    ensures r != [] ==> !IsWhitespace(r[0])
  {
    if s != [] && IsWhitespace(s[0]) then TrimStart(s[1..]) else s
  }

  /** `str::trim_end`: the prefix left after dropping trailing whitespace. */
  function TrimEnd(s: string): (r: string)
    ensures |r| <= |s| && r == s[..|r|]
    ensures forall k :: |r| <= k < |s| ==> IsWhitespace(s[k])
    ensures r != [] ==> !IsWhitespace(r[|r| - 1])
  {
    if s != [] && IsWhitespace(s[|s| - 1]) then TrimEnd(s[..|s| - 1]) else s
  }

  /** `str::trim`. */
  function Trim(s: string): (r: string)
  {
    TrimEnd(TrimStart(s))
  }

  /** The text a prompt matches on: trimmed, then lower-cased. */
  function Normalize(line: string): string
  {
    ToLower(Trim(line))
  }

  predicate AllWhitespace(s: string)
  {
    forall k :: 0 <= k < |s| ==> IsWhitespace(s[k])
  }

  /**
   * Trim removes exactly a whitespace prefix and a whitespace suffix: the
   * result is a slice of the input, and it is empty only when the whole line
   * is whitespace.
   */
  lemma {:induction false} TrimIsSlice(s: string)
    ensures exists i, j ::
      (0 <= i <= j <= |s| && Trim(s) == s[i..j] && AllWhitespace(s[..i]) && AllWhitespace(s[j..]))
    ensures Trim(s) == [] <==> AllWhitespace(s)
  {
    var t := TrimStart(s);
    var i := |s| - |t|;
    var j := i + |TrimEnd(t)|;
    assert t == s[i..];
    assert Trim(s) == s[i..j];
    assert AllWhitespace(s[..i]) by {
      forall k | 0 <= k < i ensures IsWhitespace(s[..i][k]) {
        assert s[..i][k] == s[k];
      }
    }
    assert AllWhitespace(s[j..]) by {
      forall k | 0 <= k < |s| - j ensures IsWhitespace(s[j..][k]) {
        assert s[j..][k] == t[j - i + k];
      }
    }
    if Trim(s) == [] {
      assert t == [];
      assert s == s[..i];
    } else {
      assert !IsWhitespace(s[i]);
    }
  }

  /** A non-empty trim starts and ends with a character that is not whitespace. */
  lemma {:induction false} TrimEndsNotWhitespace(s: string)
    ensures Trim(s) != [] ==> !IsWhitespace(Trim(s)[0]) && !IsWhitespace(Trim(s)[|Trim(s)| - 1])
  {
    var t := TrimStart(s);
    if Trim(s) != [] {
      assert TrimEnd(t)[0] == t[0];
    }
  }

  /** A text with no whitespace at either end is its own trim. */
  lemma {:induction false} TrimFixed(s: string)
    requires s != [] ==> !IsWhitespace(s[0]) && !IsWhitespace(s[|s| - 1])
    ensures Trim(s) == s
  {
  }

  /** A lower-cased text has no upper-case letter, so lower-casing it again changes nothing. */
  lemma {:induction false} ToLowerIdempotent(s: string)
    ensures ToLower(ToLower(s)) == ToLower(s)
  {
    var l := ToLower(s);
    assert forall k :: 0 <= k < |l| ==> ToLower(l)[k] == l[k];
  }

  /** Lower-casing keeps whitespace and non-whitespace where they were. */
  lemma {:induction false} ToLowerKeepsEnds(s: string)
    requires s != []
    ensures IsWhitespace(ToLower(s)[0]) == IsWhitespace(s[0])
    ensures IsWhitespace(ToLower(s)[|s| - 1]) == IsWhitespace(s[|s| - 1])
  {
  }

  /** Normalising twice is normalising once. */
  lemma {:induction false} NormalizeIdempotent(line: string)
    ensures Normalize(Normalize(line)) == Normalize(line)
    ensures forall k :: 0 <= k < |Normalize(line)| ==> !IsAsciiUpper(Normalize(line)[k])
  {
    var t := Trim(line);
    var n := ToLower(t);
    if n != [] {
      TrimEndsNotWhitespace(line);
      ToLowerKeepsEnds(t);
    }
    TrimFixed(n);
    ToLowerIdempotent(t);
    calc {
      Normalize(n);
      ToLower(Trim(n));
      ToLower(n);
      n;
    }
  }

  lemma {:induction false} TrimStartSkips(ws: string, rest: string)
    requires AllWhitespace(ws) && (rest != [] ==> !IsWhitespace(rest[0]))
    ensures TrimStart(ws + rest) == rest
  {
    if ws != [] {
      assert (ws + rest)[1..] == ws[1..] + rest;
      TrimStartSkips(ws[1..], rest);
    } else {
      assert ws + rest == rest;
    }
  }

  lemma {:induction false} TrimEndSkips(rest: string, ws: string)
    requires AllWhitespace(ws) && (rest != [] ==> !IsWhitespace(rest[|rest| - 1]))
    ensures TrimEnd(rest + ws) == rest
  {
    if ws != [] {
      assert (rest + ws)[..|rest + ws| - 1] == rest + ws[..|ws| - 1];
      TrimEndSkips(rest, ws[..|ws| - 1]);
    } else {
      assert rest + ws == rest;
    }
  }

  /** A single visible character padded with whitespace normalises to that character, lower-cased. */
  lemma {:induction false} NormalizePadded(before: string, c: char, after: string)
    requires AllWhitespace(before) && AllWhitespace(after) && !IsWhitespace(c)
    ensures Normalize(before + [c] + after) == [LowerChar(c)]
  {
    assert before + [c] + after == before + ([c] + after);
    TrimStartSkips(before, [c] + after);
    TrimEndSkips([c], after);
  }
}
