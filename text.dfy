/** The Python string operations the deployment tool relies on: `str.isspace`,
    `str.strip()`, `str.split()`, `sep.join(...)`, `str.lower()` and the
    substring test `sub in s`. */
module Text {

  /** Python's `str.isspace()` for a single character: the characters that
      `strip()` and `split()` treat as whitespace. */
  predicate IsSpace(c: char)
  {
    || ('\t' <= c <= '\r')
    || ('\U{1C}' <= c <= '\U{1F}')
    || c == ' '
    || c == '\U{85}'
    || c == '\U{A0}'
    || c == '\U{1680}'
    || ('\U{2000}' <= c <= '\U{200A}')
    || c == '\U{2028}'
    || c == '\U{2029}'
    || c == '\U{202F}'
    || c == '\U{205F}'
    || c == '\U{3000}'
  }

  /** Every character is whitespace (the empty string included). */
  predicate Blank(s: string)
  {
    forall i | 0 <= i < |s| :: IsSpace(s[i])
  }

  /** No character is whitespace. */
  predicate NoSpace(s: string)
  {
    forall i | 0 <= i < |s| :: !IsSpace(s[i])
  }

  /** `sub` occurs in `s` starting at position `i`. */
  predicate OccursAt(s: string, sub: string, i: int)
  {
    0 <= i <= |s| - |sub| && s[i..i + |sub|] == sub
  }

  /** Python's `sub in s` for strings. */
  predicate Contains(s: string, sub: string)
  {
    exists i | 0 <= i <= |s| - |sub| :: OccursAt(s, sub, i)
  }

  /** `s.lstrip()`: drops the leading whitespace. */
  function TrimStart(s: string): (r: string)
    ensures |r| <= |s|
  {
    if s != [] && IsSpace(s[0]) then TrimStart(s[1..]) else s
  }

  /** What `TrimStart` drops is a blank prefix, and what it keeps does not
      start with whitespace. */
  lemma {:induction false} TrimStartMeaning(s: string)
    ensures var r := TrimStart(s);
      && r == s[|s| - |r|..]
      && Blank(s[..|s| - |r|])
      && (r == [] || !IsSpace(r[0]))
  {
    if s != [] && IsSpace(s[0]) {
      TrimStartMeaning(s[1..]);
      var r := TrimStart(s);
      assert s[..|s| - |r|] == [s[0]] + s[1..][..|s| - 1 - |r|];
    }
  }

  /** `s.rstrip()`: drops the trailing whitespace. */
  function TrimEnd(s: string): (r: string)
    ensures |r| <= |s|
  {
    if s != [] && IsSpace(s[|s| - 1]) then TrimEnd(s[..|s| - 1]) else s
  }

  /** What `TrimEnd` drops is a blank suffix, and what it keeps does not
      end with whitespace. */
  lemma {:induction false} TrimEndMeaning(s: string)
    ensures var r := TrimEnd(s);
      && r == s[..|r|]
      && Blank(s[|r|..])
      && (r == [] || !IsSpace(r[|r| - 1]))
  {
    if s != [] && IsSpace(s[|s| - 1]) {
      TrimEndMeaning(s[..|s| - 1]);
      var r := TrimEnd(s);
      assert s[|r|..] == s[..|s| - 1][|r|..] + [s[|s| - 1]];
    }
  }

  /** Only blank text trims away completely. */
  lemma TrimStartBlank(s: string)
    ensures TrimStart(s) == [] <==> Blank(s)
  {
    TrimStartMeaning(s);
    var r := TrimStart(s);
    if r == [] {
      assert s[..|s|] == s;
    } else {
      assert r[0] == s[|s| - |r|];
    }
  }

  /** `s.strip()`: the text between the leading and the trailing whitespace. */
  function Strip(s: string): (r: string)
    ensures |r| <= |s|
  {
    TrimEnd(TrimStart(s))
  }

  /** `Strip(s)` is empty exactly when `s` is blank, and otherwise it
      neither starts nor ends with whitespace. */
  lemma StripMeaning(s: string)
    ensures var r := Strip(s);
      && (r == [] <==> Blank(s))
      && (r == [] || (!IsSpace(r[0]) && !IsSpace(r[|r| - 1])))
  {
    var t := TrimStart(s);
    var r := TrimEnd(t);
    TrimStartMeaning(s);
    TrimEndMeaning(t);
    assert r == [] ==> Blank(t) by {
      if r == [] { assert t[|r|..] == t; }
    }
    assert t != [] ==> !Blank(s) by {
      if t != [] { assert t[0] == s[|s| - |t|]; }
    }
    assert r == [] ==> Blank(s) by {
      if r == [] {
        assert s == s[..|s| - |t|] + t;
      }
    }
    if r != [] {
      assert r[0] == t[0];
    }
  }

  /** Where `Strip(s)` starts inside `s`. */
  function StripStart(s: string): nat
  {
    |s| - |TrimStart(s)|
  }

  /** `Strip(s)` is the slice of `s` that starts at `StripStart(s)`, and
      everything of `s` before and after that slice is whitespace. */
  lemma StripIsInfix(s: string)
    ensures StripStart(s) + |Strip(s)| <= |s|
    ensures s[StripStart(s)..StripStart(s) + |Strip(s)|] == Strip(s)
    ensures Blank(s[..StripStart(s)]) && Blank(s[StripStart(s) + |Strip(s)|..])
  {
    var t := TrimStart(s);
    var r := TrimEnd(t);
    TrimStartMeaning(s);
    TrimEndMeaning(t);
    var k := |s| - |t|;
    assert StripStart(s) == k;
    assert s[k..] == t;
    assert s[k..k + |r|] == s[k..][..|r|];
    assert s[k + |r|..] == s[k..][|r|..];
  }

  /** Stripping twice changes nothing more than stripping once. */
  lemma StripIdempotent(s: string)
    ensures Strip(Strip(s)) == Strip(s)
  {
    StripMeaning(s);
    var r := Strip(s);
    if r != [] {
      assert TrimStart(r) == r;
      assert TrimEnd(r) == r;
    }
  }

  /** `s.lower()` restricted to ASCII: 'A'..'Z' become 'a'..'z', every other
      character is kept. */
  function LowerChar(c: char): (d: char)
    ensures 'A' <= c <= 'Z' ==> 'a' <= d <= 'z'
    ensures !('A' <= c <= 'Z') ==> d == c
  {
    if 'A' <= c <= 'Z' then (c as int + 32) as char else c
  }

  function Lower(s: string): (r: string)
    ensures |r| == |s|
  {
    seq(|s|, i requires 0 <= i < |s| => LowerChar(s[i]))
  }

  /** `Lower` maps every character through `LowerChar`. */
  lemma LowerMeaning(s: string)
    ensures forall i | 0 <= i < |s| :: Lower(s)[i] == LowerChar(s[i])
  {
  }

  /** A character that is not whitespace stays so under `LowerChar`, and
      whitespace is left alone. */
  lemma LowerKeepsSpace(c: char)
    ensures IsSpace(LowerChar(c)) <==> IsSpace(c)
  {
  }

  /** `w` begins and ends with a non-whitespace character. */
  predicate Solid(w: string)
  {
    w != [] && !IsSpace(w[0]) && !IsSpace(w[|w| - 1])
  }

  /** A solid needle cannot overlap whitespace padding: it occurs in `s`
      exactly when it occurs in the part of `s` between a blank prefix and
      a blank suffix. */
  lemma ContainsInfix(s: string, a: nat, b: nat, w: string)
    requires a <= b <= |s| && Blank(s[..a]) && Blank(s[b..])
    requires Solid(w)
    ensures Contains(s[a..b], w) <==> Contains(s, w)
  {
    var t := s[a..b];
    if Contains(t, w) {
      var i :| 0 <= i <= |t| - |w| && OccursAt(t, w, i);
      forall j | 0 <= j < |w| ensures s[a + i + j] == w[j] {
        assert t[i..i + |w|][j] == t[i + j];
      }
      assert s[a + i..a + i + |w|] == w;
      assert OccursAt(s, w, a + i);
    }
    if Contains(s, w) {
      var i :| 0 <= i <= |s| - |w| && OccursAt(s, w, i);
      forall j | 0 <= j < a ensures IsSpace(s[j]) {
        assert s[..a][j] == s[j];
      }
      forall j | b <= j < |s| ensures IsSpace(s[j]) {
        assert s[b..][j - b] == s[j];
      }
      assert s[i] == w[0];
      var e := i + |w| - 1;
      assert s[e] == w[|w| - 1];
      assert a <= i && e < b;
      forall j | 0 <= j < |w| ensures t[i - a + j] == w[j] {
        assert s[i..i + |w|][j] == s[i + j];
      }
      assert t[i - a..i - a + |w|] == w;
      assert OccursAt(t, w, i - a);
    }
  }

  /** Testing a solid needle against `s.strip()` is testing it against `s`. */
  lemma ContainsStrip(s: string, w: string)
    requires Solid(w)
    ensures Contains(Strip(s), w) <==> Contains(s, w)
  {
    StripIsInfix(s);
    ContainsInfix(s, StripStart(s), StripStart(s) + |Strip(s)|, w);
  }

  /** Lower-casing commutes with slicing and keeps whitespace padding. */
  lemma LowerPadding(s: string, a: nat, b: nat)
    requires a <= b <= |s| && Blank(s[..a]) && Blank(s[b..])
    ensures Lower(s[a..b]) == Lower(s)[a..b]
    ensures Blank(Lower(s)[..a]) && Blank(Lower(s)[b..])
  {
    var l := Lower(s);
    LowerMeaning(s);
    LowerMeaning(s[a..b]);
    forall i | 0 <= i < a ensures IsSpace(l[..a][i]) {
      assert s[..a][i] == s[i];
      LowerKeepsSpace(s[i]);
    }
    forall i | 0 <= i < |l| - b ensures IsSpace(l[b..][i]) {
      assert s[b..][i] == s[b + i];
      LowerKeepsSpace(s[b + i]);
    }
  }

  /** The same for `s.strip().lower()` against `s.lower()`. */
  lemma ContainsLowerStrip(s: string, w: string)
    requires Solid(w)
    ensures Contains(Lower(Strip(s)), w) <==> Contains(Lower(s), w)
  {
    StripIsInfix(s);
    var a := StripStart(s);
    var b := a + |Strip(s)|;
    LowerPadding(s, a, b);
    ContainsInfix(Lower(s), a, b, w);
  }

  /** The leading run of non-whitespace characters of `s`. */
  function Word(s: string): (w: string)
    ensures |w| <= |s| && w == s[..|w|] && NoSpace(w)
    ensures |w| == |s| || IsSpace(s[|w|])
  {
    if s == [] || IsSpace(s[0]) then [] else [s[0]] + Word(s[1..])
  }

  /** Python's `s.split()` (no separator): the maximal runs of
      non-whitespace characters, in order. */
  function Fields(s: string): seq<string>
    decreases |s|
  {
    var t := TrimStart(s);
    if t == [] then []
    else
      var w := Word(t);
      assert w != [] by {
        TrimStartMeaning(s);
        assert !IsSpace(t[0]);
      }
      [w] + Fields(t[|w|..])
  }

  /** Every field is a non-empty run of non-whitespace characters, and there
      are no fields exactly when `s` is blank. */
  lemma {:induction false} FieldsAreWords(s: string)
    ensures forall k | 0 <= k < |Fields(s)| :: Fields(s)[k] != [] && NoSpace(Fields(s)[k])
    ensures Fields(s) == [] <==> Blank(s)
    decreases |s|
  {
    var t := TrimStart(s);
    TrimStartMeaning(s);
    if t == [] {
      assert s == s[..|s|];
    } else {
      var w := Word(t);
      assert w != [] by { assert !IsSpace(t[0]); }
      assert !Blank(s) by { assert s[|s| - |t|] == t[0]; }
      var rest := t[|w|..];
      FieldsAreWords(rest);
      var r := Fields(s);
      assert r == [w] + Fields(rest);
      forall k | 0 <= k < |r|
        ensures r[k] != [] && NoSpace(r[k])
      {
        if k > 0 {
          assert r[k] == Fields(rest)[k - 1];
        }
      }
    }
  }

  /** The first field of `s` is preceded only by whitespace and followed by
      whitespace or the end of `s`. */
  lemma FirstField(s: string)
    requires Fields(s) != []
    ensures var w := Fields(s)[0];
      exists k | 0 <= k <= |s| - |w| ::
        Blank(s[..k]) && s[k..k + |w|] == w && (k + |w| == |s| || IsSpace(s[k + |w|]))
  {
    var t := TrimStart(s);
    TrimStartMeaning(s);
    var w := Word(t);
    var k := |s| - |t|;
    assert s[k..] == t;
    assert s[k..k + |w|] == w;
  }

  /** The concatenation of a list of strings. */
  function Concat(ws: seq<string>): string
  {
    if ws == [] then [] else ws[0] + Concat(ws[1..])
  }

  /** The non-whitespace characters of `s`, in order. */
  function Visible(s: string): string
  {
    if s == [] then [] else (if IsSpace(s[0]) then [] else [s[0]]) + Visible(s[1..])
  }

  lemma {:induction false} VisibleAppend(a: string, b: string)
    ensures Visible(a + b) == Visible(a) + Visible(b)
    decreases |a|
  {
    if a != [] {
      assert (a + b)[1..] == a[1..] + b;
      VisibleAppend(a[1..], b);
    } else {
      assert a + b == b;
    }
  }

  lemma {:induction false} VisibleBlank(s: string)
    requires Blank(s)
    ensures Visible(s) == []
  {
    if s != [] {
      VisibleBlank(s[1..]);
    }
  }

  lemma {:induction false} VisibleNoSpace(s: string)
    requires NoSpace(s)
    ensures Visible(s) == s
  {
    if s != [] {
      VisibleNoSpace(s[1..]);
    }
  }

  /** `split()` loses exactly the whitespace: gluing the fields back
      together gives the non-whitespace characters of `s`, in order. */
  lemma VisibleTrimStart(s: string)
    ensures Visible(TrimStart(s)) == Visible(s)
  {
    var t := TrimStart(s);
    TrimStartMeaning(s);
    var k := |s| - |t|;
    assert s == s[..k] + t;
    VisibleAppend(s[..k], t);
    VisibleBlank(s[..k]);
  }

  lemma ConcatCons(w: string, ws: seq<string>)
    ensures Concat([w] + ws) == w + Concat(ws)
  {
    assert ([w] + ws)[1..] == ws;
  }

  lemma VisibleWordThenRest(t: string)
    ensures Visible(t) == Word(t) + Visible(t[|Word(t)|..])
  {
    var w := Word(t);
    assert t == w + t[|w|..];
    VisibleAppend(w, t[|w|..]);
    VisibleNoSpace(w);
  }

  lemma {:induction false} FieldsKeepVisible(s: string)
    ensures Concat(Fields(s)) == Visible(s)
    decreases |s|
  {
    var t := TrimStart(s);
    VisibleTrimStart(s);
    if t != [] {
      var rest := t[|Word(t)|..];
      FieldsKeepVisible(rest);
      ConcatCons(Word(t), Fields(rest));
      VisibleWordThenRest(t);
    }
  }

  lemma {:induction false} TrimStartAppend(x: string, b: string)
    requires TrimStart(x) != []
    ensures TrimStart(x + b) == TrimStart(x) + b
    decreases |x|
  {
    if IsSpace(x[0]) {
      assert (x + b)[1..] == x[1..] + b;
      TrimStartAppend(x[1..], b);
    }
  }

  lemma {:induction false} WordAppendBlank(t: string, b: string)
    requires Blank(b)
    ensures Word(t + b) == Word(t)
    decreases |t|
  {
    if t == [] {
      assert t + b == b;
    } else if !IsSpace(t[0]) {
      assert (t + b)[1..] == t[1..] + b;
      WordAppendBlank(t[1..], b);
    }
  }

  /** Trailing whitespace never adds a field. */
  lemma {:induction false} FieldsIgnoreTrailingBlank(x: string, b: string)
    requires Blank(b)
    ensures Fields(x + b) == Fields(x)
    decreases |x|
  {
    var t := TrimStart(x);
    TrimStartMeaning(x);
    if t == [] {
      TrimStartBlank(x);
      TrimStartBlank(x + b);
      assert Blank(x + b);
    } else {
      TrimStartAppend(x, b);
      WordAppendBlank(t, b);
      var w := Word(t);
      assert (t + b)[|w|..] == t[|w|..] + b;
      FieldsIgnoreTrailingBlank(t[|w|..], b);
    }
  }

  /** `s.strip().split()` and `s.split()` agree. */
  lemma FieldsOfStrip(s: string)
    ensures Fields(Strip(s)) == Fields(s)
  {
    var t := TrimStart(s);
    var r := TrimEnd(t);
    TrimStartMeaning(s);
    TrimEndMeaning(t);
    assert t == r + t[|r|..];
    FieldsIgnoreTrailingBlank(r, t[|r|..]);
    assert TrimStart(t) == t;
  }

  /** `sep.join(parts)`. */
  function Join(parts: seq<string>, sep: char): string
  {
    if parts == [] then []
    else if |parts| == 1 then parts[0]
    else parts[0] + [sep] + Join(parts[1..], sep)
  }

  /** The position of the first `c` in `s`, or `|s|` when there is none. */
  function IndexOf(s: string, c: char): (k: nat)
    ensures k <= |s| && (k < |s| ==> s[k] == c) && c !in s[..k]
    ensures c !in s ==> k == |s|
  {
    if s == [] || s[0] == c then 0 else 1 + IndexOf(s[1..], c)
  }

  /** Python's `s.split(sep)` for a one-character separator, the way a
      reader of a `sep`-joined list takes it apart. */
  function SplitOn(s: string, sep: char): (r: seq<string>)
    ensures |r| >= 1
    decreases |s|
  {
    var k := IndexOf(s, sep);
    if k == |s| then [s] else [s[..k]] + SplitOn(s[k + 1..], sep)
  }

  lemma {:induction false} IndexOfSeparator(a: string, sep: char, b: string)
    requires sep !in a
    ensures IndexOf(a + [sep] + b, sep) == |a|
    decreases |a|
  {
    if a != [] {
      assert (a + [sep] + b)[1..] == a[1..] + [sep] + b;
      IndexOfSeparator(a[1..], sep, b);
    }
  }

  /** Splitting a joined list on the separator gives the list back, provided
      no element contains the separator. */
  lemma {:induction false} SplitJoin(parts: seq<string>, sep: char)
    requires parts != []
    requires forall i | 0 <= i < |parts| :: sep !in parts[i]
    ensures SplitOn(Join(parts, sep), sep) == parts
    decreases |parts|
  {
    if |parts| > 1 {
      SplitOnSeparated(parts[0], sep, Join(parts[1..], sep));
      SplitJoin(parts[1..], sep);
      assert [parts[0]] + parts[1..] == parts;
    }
  }

  /** Splitting at a first separator that follows `a`. */
  lemma SplitOnSeparated(a: string, sep: char, b: string)
    requires sep !in a
    ensures SplitOn(a + [sep] + b, sep) == [a] + SplitOn(b, sep)
  {
    var s := a + [sep] + b;
    IndexOfSeparator(a, sep, b);
    assert s[..|a|] == a;
    assert s[|a| + 1..] == b;
  }
}
