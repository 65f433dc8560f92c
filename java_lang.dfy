/** The pieces of the Java runtime that the configuration core leans on: null and the
    exceptions it can raise, the fixed-width integer types of its getters, and the
    String operations it calls (split on dots, equalsIgnoreCase, contains, replace,
    Integer.parseInt). Each is written out here so that the model states exactly the
    behaviour the core inherits from them. */
module JavaLang {

  datatype Option<+T> = None | Some(value: T)

  /** The unchecked exceptions the core can raise. */
  datatype Error = NullPointer | NoSuchElement | IndexOutOfBounds

  /** A value, or the exception thrown while computing it. */
  datatype Result<+T> = Ok(value: T) | Err(error: Error)

  newtype int32 = x: int | -0x8000_0000 <= x < 0x8000_0000
  newtype int16 = x: int | -0x8000 <= x < 0x8000

  // ---------------------------------------------------------------------------
  // Case-insensitive comparison

  /** Character.toLowerCase, restricted to the ASCII letters. */
  function Lower(c: char): char
  {
    if 'A' <= c <= 'Z' then (c as int + 32) as char else c
  }

  /** String.equalsIgnoreCase: same length, and equal characters up to case. */
  predicate EqualsIgnoreCase(a: string, b: string)
  {
    |a| == |b| && forall i :: 0 <= i < |a| ==> Lower(a[i]) == Lower(b[i])
  }

  // ---------------------------------------------------------------------------
  // Splitting a dotted path: String.split("\\.")

  /** The pieces of `s` between its dots, empty pieces included ("a..b" has the
      pieces "a", "", "b"; a string without dots is its own single piece). */
  function Pieces(s: string): (r: seq<string>)
    ensures |r| >= 1
    ensures forall i :: 0 <= i < |r| ==> '.' !in r[i]
  {
    if s == [] then [""]
    else
      var rest := Pieces(s[1..]);
      if s[0] == '.' then [""] + rest
      else [[s[0]] + rest[0]] + rest[1..]
  }

  /** Glues segments back together with dots. */
  function Join(segs: seq<string>): string
    requires |segs| >= 1
  {
    if |segs| == 1 then segs[0] else segs[0] + "." + Join(segs[1..])
  }

  function DropTrailingEmpty(ps: seq<string>): (r: seq<string>)
    ensures |r| <= |ps| && r == ps[..|r|]
    ensures r != [] ==> r[|r| - 1] != ""
    ensures forall i :: |r| <= i < |ps| ==> ps[i] == ""
  {
    if ps == [] then []
    else if ps[|ps| - 1] == "" then DropTrailingEmpty(ps[..|ps| - 1])
    else ps
  }

  /** String.split("\\."): when the string has no dot the result is the string
      itself (even the empty string); otherwise its pieces with the trailing
      empty pieces removed, so "a.b." gives "a", "b" and "." gives nothing. */
  function Split(s: string): (r: seq<string>)
    ensures forall i :: 0 <= i < |r| ==> '.' !in r[i]
  {
    if '.' !in s then [s] else DropTrailingEmpty(Pieces(s))
  }

  /** A path made of non-empty segments: no leading, trailing or doubled dot. */
  predicate WellFormedPath(s: string)
  {
    forall i :: 0 <= i < |Pieces(s)| ==> Pieces(s)[i] != ""
  }

  lemma {:induction false} JoinPieces(s: string)
    ensures Join(Pieces(s)) == s
  {
    if s != [] {
      var rest := Pieces(s[1..]);
      JoinPieces(s[1..]);
      if s[0] == '.' {
        assert Pieces(s) == [""] + rest;
        assert ([""] + rest)[1..] == rest;
      } else {
        var p := Pieces(s);
        assert p == [[s[0]] + rest[0]] + rest[1..];
        if |rest| == 1 {
          assert s == [s[0]] + s[1..];
        } else {
          assert p[1..] == rest[1..];
          assert Join(rest) == rest[0] + "." + Join(rest[1..]);
          calc {
            Join(p);
            ([s[0]] + rest[0]) + "." + Join(rest[1..]);
            [s[0]] + (rest[0] + "." + Join(rest[1..]));
            [s[0]] + s[1..];
            s;
          }
        }
      }
    }
  }

  /** On a well-formed path, split keeps every piece, and joining the segments
      gives the path back; so two well-formed paths with the same segments are equal. */
  lemma SplitWellFormed(s: string)
    requires WellFormedPath(s)
    ensures Split(s) == Pieces(s) && |Split(s)| >= 1
    ensures Join(Split(s)) == s
  {
    JoinPieces(s);
    if '.' !in s {
      SinglePiece(s);
    }
  }

  lemma {:induction false} SinglePiece(s: string)
    requires '.' !in s
    ensures Pieces(s) == [s]
  {
    if s != [] {
      SinglePiece(s[1..]);
      assert s == [s[0]] + s[1..];
    }
  }

  lemma SplitInjective(s: string, t: string)
    requires WellFormedPath(s) && WellFormedPath(t)
    requires Split(s) == Split(t)
    ensures s == t
  {
    SplitWellFormed(s);
    SplitWellFormed(t);
  }

  /** Java's split drops trailing empty strings: "a.b." has two segments. */
  lemma SplitDropsTrailingEmpty()
    ensures Split("a.b.") == ["a", "b"]
  {
    PiecesAt("a", "b.");
    PiecesAt("b", "");
    assert "a.b." == "a" + "." + "b.";
    assert "b." == "b" + "." + "";
    assert Pieces("a.b.") == ["a", "b", ""];
  }

  /** Inner and leading empty strings stay: "a..b" has three segments, and ".a"
      starts with an empty one. */
  lemma SplitKeepsInnerEmpty()
    ensures Split("a..b") == ["a", "", "b"]
    ensures Split(".a") == ["", "a"]
  {
    PiecesAt("a", ".b");
    PiecesAt("", "b");
    SinglePiece("b");
    assert "a..b" == "a" + "." + ".b";
    assert ".b" == "" + "." + "b";
    assert Pieces("a..b") == ["a", "", "b"];
    PiecesAt("", "a");
    SinglePiece("a");
    assert ".a" == "" + "." + "a";
    assert '.' in ".a" by {
      assert ".a"[0] == '.';
    }
  }

  /** A string of dots only splits into no segments at all, while the empty
      string, having no dot, comes back whole. */
  lemma SplitDotsOnly()
    ensures Split(".") == [] && Split("") == [""]
  {
    PiecesAt("", "");
    assert "." == "" + "." + "";
  }

  /** The first dot ends the first piece. */
  lemma {:induction false} PiecesAt(a: string, b: string)
    requires '.' !in a
    ensures Pieces(a + "." + b) == [a] + Pieces(b)
  {
    if a == [] {
      assert a + "." + b == ['.'] + b;
      assert (['.'] + b)[1..] == b;
    } else {
      PiecesAt(a[1..], b);
      var s := a + "." + b;
      assert s[0] == a[0] && s[1..] == a[1..] + "." + b;
      assert [a[0]] + a[1..] == a;
    }
  }

  // ---------------------------------------------------------------------------
  // Substrings: String.contains and String.replace(target, "")

  /** String.contains: `t` occurs somewhere in `s` (the empty string occurs in every string). */
  predicate ContainsSubstring(s: string, t: string)
  {
    exists i :: 0 <= i <= |s| - |t| && OccursAt(s, t, i)
  }

  predicate OccursAt(s: string, t: string, i: int)
  {
    0 <= i <= |s| - |t| && s[i..i + |t|] == t
  }

  /** s.replace(t, ""): every occurrence of `t`, found left to right without
      overlap, is removed. */
  function RemoveAll(s: string, t: string): (r: string)
    requires t != ""
    ensures |r| <= |s|
    decreases |s|
  {
    if |s| < |t| then s
    else if s[..|t|] == t then RemoveAll(s[|t|..], t)
    else [s[0]] + RemoveAll(s[1..], t)
  }

  /** Where `t` does not occur, replace leaves the string as it is. */
  lemma {:induction false} RemoveAllAbsent(s: string, t: string)
    requires t != "" && !ContainsSubstring(s, t)
    ensures RemoveAll(s, t) == s
    decreases |s|
  {
    if |s| >= |t| {
      assert !OccursAt(s, t, 0);
      assert !ContainsSubstring(s[1..], t) by {
        forall i | 0 <= i <= |s[1..]| - |t|
          ensures !OccursAt(s[1..], t, i)
        {
          assert !OccursAt(s, t, i + 1);
          assert s[1..][i..i + |t|] == s[i + 1..i + 1 + |t|];
        }
      }
      RemoveAllAbsent(s[1..], t);
      assert s == [s[0]] + s[1..];
    }
  }

  /** When the rest of the string holds no further occurrence, removing every
      occurrence of a leading `t` is the same as stripping that prefix. */
  lemma RemoveAllPrefix(t: string, u: string)
    requires t != "" && !ContainsSubstring(u, t)
    ensures RemoveAll(t + u, t) == u
  {
    assert (t + u)[..|t|] == t;
    assert (t + u)[|t|..] == u;
    RemoveAllAbsent(u, t);
  }

  // ---------------------------------------------------------------------------
  // Integer.parseInt / Short.parseShort, radix 10

  predicate IsDigit(c: char)
  {
    '0' <= c <= '9'
  }

  predicate AllDigits(s: string)
  {
    forall i :: 0 <= i < |s| ==> IsDigit(s[i])
  }

  /** The value of a string of decimal digits. */
  function DigitsValue(s: string): nat
    requires AllDigits(s)
  {
    if s == [] then 0
    else DigitsValue(s[..|s| - 1]) * 10 + (s[|s| - 1] as int - '0' as int)
  }

  /** The decimal number an optionally signed digit string denotes: one leading
      '-' or '+', then at least one digit, and nothing else. */
  function ParseDecimal(s: string): (r: Option<int>)
    ensures r.Some? ==> s != [] && (s[0] == '-' || s[0] == '+' || IsDigit(s[0]))
  {
    if s == [] then None
    else if s[0] == '-' || s[0] == '+' then
      var digits := s[1..];
      if digits == [] || !AllDigits(digits) then None
      else if s[0] == '-' then Some(-(DigitsValue(digits) as int))
      else Some(DigitsValue(digits))
    else if AllDigits(s) then Some(DigitsValue(s))
    else None
  }

  /** Integer.valueOf(String): the parsed value when it fits in 32 bits,
      nothing (a NumberFormatException) otherwise. */
  function ParseInt32(s: string): (r: Option<int32>)
    ensures r.Some? <==> ParseDecimal(s).Some? && -0x8000_0000 <= ParseDecimal(s).value < 0x8000_0000
    ensures r.Some? ==> r.value as int == ParseDecimal(s).value
  {
    match ParseDecimal(s)
    case Some(v) => if -0x8000_0000 <= v < 0x8000_0000 then Some(v as int32) else None
    case None => None
  }

  /** Short.valueOf(String): the parsed value when it fits in 16 bits. */
  function ParseInt16(s: string): (r: Option<int16>)
    ensures r.Some? <==> ParseDecimal(s).Some? && -0x8000 <= ParseDecimal(s).value < 0x8000
    ensures r.Some? ==> r.value as int == ParseDecimal(s).value
  {
    match ParseDecimal(s)
    case Some(v) => if -0x8000 <= v < 0x8000 then Some(v as int16) else None
    case None => None
  }

  /** Decimal digits of a natural number, most significant first. */
  function Digits(n: nat): (r: string)
    ensures r != [] && AllDigits(r)
    ensures DigitsValue(r) == n
  {
    if n < 10 then [('0' as int + n) as char]
    else
      var r := Digits(n / 10) + [('0' as int + n % 10) as char];
      assert r[..|r| - 1] == Digits(n / 10);
      r
  }

  /** Integer.toString: the canonical decimal form, '-' for negative numbers. */
  function ToDecimal(n: int): string
  {
    if n < 0 then "-" + Digits(-n) else Digits(n)
  }

  /** Parsing reads back every number's decimal form. */
  lemma ParseToDecimal(n: int)
    ensures ParseDecimal(ToDecimal(n)) == Some(n)
  {
    if n < 0 {
      assert ToDecimal(n)[1..] == Digits(-n);
    }
  }

  /** Strings the parser rejects: no digits, a sign alone, a non-digit. */
  lemma ParseRejects()
    ensures ParseDecimal("") == None
    ensures ParseDecimal("-") == None
    ensures ParseDecimal("abc") == None
    ensures ParseDecimal("1x") == None
  {
    assert !IsDigit("1x"[1]);
    assert !IsDigit("abc"[0]);
  }
}
