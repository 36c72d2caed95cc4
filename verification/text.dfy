/** String operations that the Python and JavaScript sources get from their
    standard libraries: whitespace trimming (`str.strip`, `String.trim`),
    whitespace tokenising (`str.split()` with no argument), splitting on one
    separator character (`str.split(',')`, `String.split(' ')`), joining, and
    ASCII upper-casing. Strings are sequences of Unicode scalar values, which
    is what Python's `len` counts. */
module Text {

  /** The ASCII whitespace characters: space, tab, line feed, carriage
      return, vertical tab and form feed. */
  predicate IsSpace(c: char) {
    c == ' ' || c == '\t' || c == '\n' || c == '\r' || c == '\U{B}' || c == '\U{C}'
  }

  predicate AllSpace(s: string) {
    forall i | 0 <= i < |s| :: IsSpace(s[i])
  }

  predicate NoSpace(s: string) {
    forall i | 0 <= i < |s| :: !IsSpace(s[i])
  }

  /** A string that neither starts nor ends with whitespace. */
  predicate Edgeless(s: string) {
    s == [] || (!IsSpace(s[0]) && !IsSpace(s[|s| - 1]))
  }

  /** Leading whitespace removed: what is left is a suffix of `s`, and what
      was dropped is whitespace. */
  function TrimStart(s: string): (r: string)
    ensures |r| <= |s|
    ensures r == [] || !IsSpace(r[0])
    decreases |s|
  {
    if s != [] && IsSpace(s[0]) then TrimStart(s[1..]) else s
  }

  lemma {:induction false} TrimStartSlice(s: string)
    ensures var r := TrimStart(s); r == s[|s| - |r|..] && AllSpace(s[..|s| - |r|])
    decreases |s|
  {
    if s != [] && IsSpace(s[0]) {
      TrimStartSlice(s[1..]);
      var r := TrimStart(s);
      var k := |s| - |r|;
      assert s[1..][|s| - 1 - |r|..] == s[k..];
      forall i | 0 <= i < k ensures IsSpace(s[..k][i]) {
        if i > 0 {
          assert s[..k][i] == s[1..][..k - 1][i - 1];
        }
      }
    }
  }

  /** Trailing whitespace removed: what is left is a prefix of `s`, and what
      was dropped is whitespace. */
  function TrimEnd(s: string): (r: string)
    ensures |r| <= |s|
    ensures r == [] || !IsSpace(r[|r| - 1])
    decreases |s|
  {
    if s != [] && IsSpace(s[|s| - 1]) then TrimEnd(s[..|s| - 1]) else s
  }

  lemma {:induction false} TrimEndSlice(s: string)
    ensures var r := TrimEnd(s); r == s[..|r|] && AllSpace(s[|r|..])
    decreases |s|
  {
    if s != [] && IsSpace(s[|s| - 1]) {
      var q := s[..|s| - 1];
      TrimEndSlice(q);
      var r := TrimEnd(s);
      assert q[..|r|] == s[..|r|];
      forall i | |r| <= i < |s| ensures IsSpace(s[i]) {
        if i < |s| - 1 {
          assert s[i] == q[|r|..][i - |r|];
        }
      }
    }
  }

  /** Python's `str.strip()` and JavaScript's `String.prototype.trim()`:
      the result is no longer than `s`, has no whitespace at either end,
      and is empty exactly when `s` is all whitespace. */
  function Trim(s: string): (r: string)
    ensures |r| <= |s|
    ensures Edgeless(r)
    ensures r == [] <==> AllSpace(s)
  {
    var t := TrimStart(s);
    var r := TrimEnd(t);
    var a := |s| - |t|;
    TrimStartSlice(s);
    TrimEndSlice(t);
    assert r != [] ==> r[0] == t[0] && !AllSpace(s) by {
      if r != [] {
        assert s[a] == t[0];
      }
    }
    assert r == [] ==> AllSpace(s) by {
      if r == [] {
        forall i | 0 <= i < |s| ensures IsSpace(s[i]) {
          assert s[i] == s[..a][i];
        }
      }
    }
    r
  }

  /** The trimmed string is the slice of `s` that is left after cutting
      whitespace from both ends. */
  lemma TrimSlice(s: string)
    ensures var a := |s| - |TrimStart(s)|;
      && a + |Trim(s)| <= |s|
      && Trim(s) == s[a..a + |Trim(s)|]
      && AllSpace(s[..a]) && AllSpace(s[a + |Trim(s)|..])
  {
    var t := TrimStart(s);
    var r := TrimEnd(t);
    var a := |s| - |t|;
    TrimStartSlice(s);
    TrimEndSlice(t);
    assert t == s[a..];
    assert r == t[..|r|];
    assert s[a + |r|..] == t[|r|..];
  }

  /** Trimming twice is trimming once; an edgeless string is its own trim. */
  lemma TrimOfEdgeless(s: string)
    requires Edgeless(s)
    ensures Trim(s) == s
  {
  }

  lemma TrimIdempotent(s: string)
    ensures Trim(Trim(s)) == Trim(s)
  {
    TrimOfEdgeless(Trim(s));
  }

  /** Trimming ignores whitespace added at both ends. */
  lemma {:induction false} TrimPadded(s: string, pad: string)
    requires AllSpace(pad)
    ensures Trim(pad + s + pad) == Trim(s)
  {
    TrimStartPadded(s + pad, pad);
    assert pad + s + pad == pad + (s + pad);
    TrimEndPadded(TrimStart(s), pad);
    TrimStartSuffix(s, pad);
  }

  lemma {:induction false} TrimStartPadded(s: string, pad: string)
    requires AllSpace(pad)
    ensures TrimStart(pad + s) == TrimStart(s)
    decreases |pad|
  {
    if pad != [] {
      var ps := pad + s;
      var rest := pad[1..];
      assert ps[0] == pad[0] && IsSpace(ps[0]);
      assert ps[1..] == rest + s;
      assert TrimStart(ps) == TrimStart(rest + s);
      assert AllSpace(rest) by {
        forall i | 0 <= i < |rest| ensures IsSpace(rest[i]) {
          assert rest[i] == pad[i + 1];
        }
      }
      TrimStartPadded(s, rest);
    } else {
      assert pad + s == s;
    }
  }

  lemma {:induction false} TrimEndPadded(s: string, pad: string)
    requires AllSpace(pad)
    ensures TrimEnd(s + pad) == TrimEnd(s)
    decreases |pad|
  {
    if pad != [] {
      var sp := s + pad;
      var q := pad[..|pad| - 1];
      assert sp[|sp| - 1] == pad[|pad| - 1] && IsSpace(sp[|sp| - 1]);
      assert sp[..|sp| - 1] == s + q;
      assert TrimEnd(sp) == TrimEnd(s + q);
      assert AllSpace(q) by {
        forall i | 0 <= i < |q| ensures IsSpace(q[i]) {
          assert q[i] == pad[i];
        }
      }
      TrimEndPadded(s, q);
    } else {
      assert s + pad == s;
    }
  }

  /** Trimming the front commutes with appending whitespace. */
  lemma {:induction false} TrimStartSuffix(s: string, pad: string)
    requires AllSpace(pad)
    ensures TrimEnd(TrimStart(s + pad)) == TrimEnd(TrimStart(s))
    decreases |s|
  {
    if s == [] {
      assert s + pad == pad;
      TrimStartAllSpace(pad);
    } else if IsSpace(s[0]) {
      assert (s + pad)[1..] == s[1..] + pad;
      TrimStartSuffix(s[1..], pad);
    } else {
      assert TrimStart(s + pad) == s + pad;
      TrimEndPadded(s, pad);
    }
  }

  lemma {:induction false} TrimStartAllSpace(s: string)
    requires AllSpace(s)
    ensures TrimStart(s) == []
    decreases |s|
  {
    if s != [] {
      TrimStartAllSpace(s[1..]);
    }
  }

  /** Number of leading non-whitespace characters. */
  function RunLength(s: string): (n: nat)
    ensures n <= |s|
    ensures NoSpace(s[..n])
    ensures n == |s| || IsSpace(s[n])
  {
    if s == [] || IsSpace(s[0]) then 0 else 1 + RunLength(s[1..])
  }

  /** Python's `str.split()` with no argument: the maximal runs of
      non-whitespace characters, in order. Every token is non-empty and
      whitespace-free, and there are none exactly when `s` is all
      whitespace (in particular when `s` is empty). */
  function Words(s: string): (r: seq<string>)
    ensures forall i | 0 <= i < |r| :: r[i] != [] && NoSpace(r[i])
    ensures r == [] <==> AllSpace(s)
    decreases |s|
  {
    if s == [] then []
    else if IsSpace(s[0]) then Words(s[1..])
    else
      var n := RunLength(s);
      [s[..n]] + Words(s[n..])
  }
  /** Every word holds at least one character, so there are at most as
      many words as characters. */
  lemma {:induction false} WordsFitIn(s: string)
    ensures |Words(s)| <= |s|
    decreases |s|
  {
    if s != [] {
      if IsSpace(s[0]) {
        WordsFitIn(s[1..]);
      } else {
        WordsFitIn(s[RunLength(s)..]);
      }
    }
  }


  /** Number of occurrences of `c` in `s`. */
  function Count(s: string, c: char): nat
  {
    if s == [] then 0 else (if s[0] == c then 1 else 0) + Count(s[1..], c)
  }

  /** Splitting on one separator character, as Python's `str.split(',')`
      and JavaScript's `String.prototype.split(' ')` do: one more piece than
      there are separators, empty pieces included, and no piece contains the
      separator. */
  function Split(s: string, sep: char): (r: seq<string>)
    ensures |r| == Count(s, sep) + 1
    ensures forall i | 0 <= i < |r| :: sep !in r[i]
    decreases |s|
  {
    if s == [] then [[]]
    else
      var rest := Split(s[1..], sep);
      if s[0] == sep then [[]] + rest
      else [[s[0]] + rest[0]] + rest[1..]
  }

  function Join(parts: seq<string>, sep: char): string
  {
    if |parts| == 0 then []
    else if |parts| == 1 then parts[0]
    else parts[0] + [sep] + Join(parts[1..], sep)
  }

  /** Joining the pieces of a split with the same separator gives back the
      original string. */
  lemma {:induction false} JoinSplit(s: string, sep: char)
    ensures Join(Split(s, sep), sep) == s
    decreases |s|
  {
    if s != [] {
      var rest := Split(s[1..], sep);
      JoinSplit(s[1..], sep);
      if s[0] == sep {
        assert Split(s, sep) == [[]] + rest;
        assert Join([[]] + rest, sep) == [] + [sep] + Join(rest, sep);
      } else {
        var r := [[s[0]] + rest[0]] + rest[1..];
        if |rest| == 1 {
          assert Join(r, sep) == [s[0]] + rest[0];
        } else {
          assert Join(rest, sep) == rest[0] + [sep] + Join(rest[1..], sep);
          assert r[1..] == rest[1..];
          assert Join(r, sep) == ([s[0]] + rest[0]) + [sep] + Join(rest[1..], sep);
        }
      }
    }
  }

  /** Splitting a join of separator-free pieces gives back the pieces. */
  lemma {:induction false} SplitJoin(parts: seq<string>, sep: char)
    requires |parts| >= 1
    requires forall i | 0 <= i < |parts| :: sep !in parts[i]
    ensures Split(Join(parts, sep), sep) == parts
    decreases |parts|, |parts[0]|
  {
    var p := parts[0];
    if p == [] {
      if |parts| > 1 {
        SplitJoin(parts[1..], sep);
        var s := Join(parts, sep);
        assert s == [sep] + Join(parts[1..], sep);
        assert s[1..] == Join(parts[1..], sep);
        assert Split(s, sep) == [[]] + parts[1..];
        assert [[]] + parts[1..] == parts;
      }
    } else {
      var shorter := [p[1..]] + parts[1..];
      assert forall i | 0 <= i < |shorter| :: sep !in shorter[i] by {
        forall i | 0 <= i < |shorter| ensures sep !in shorter[i] {
          if i == 0 {
            assert forall x | x in p[1..] :: x in p;
          }
        }
      }
      SplitJoin(shorter, sep);
      var s := Join(parts, sep);
      if |parts| == 1 {
        assert s == p;
        assert s[1..] == Join(shorter, sep);
      } else {
        assert s == p + [sep] + Join(parts[1..], sep);
        assert Join(shorter, sep) == p[1..] + [sep] + Join(parts[1..], sep);
        assert s[1..] == Join(shorter, sep);
      }
      assert s[0] == p[0];
      assert p[0] != sep;
      var rest := Split(s[1..], sep);
      assert rest == shorter;
      assert Split(s, sep) == [[p[0]] + p[1..]] + parts[1..];
      assert [p[0]] + p[1..] == p;
      assert [p] + parts[1..] == parts;
    }
  }

  /** The pieces of a string without whitespace have none either. */
  lemma {:induction false} SplitKeepsNoSpace(s: string, sep: char)
    requires NoSpace(s)
    ensures forall i | 0 <= i < |Split(s, sep)| :: NoSpace(Split(s, sep)[i])
    decreases |s|
  {
    if s != [] {
      assert NoSpace(s[1..]) by {
        forall i | 0 <= i < |s[1..]| ensures !IsSpace(s[1..][i]) {
          assert s[1..][i] == s[i + 1];
        }
      }
      SplitKeepsNoSpace(s[1..], sep);
      var rest := Split(s[1..], sep);
      if s[0] != sep {
        var first := [s[0]] + rest[0];
        assert NoSpace(first) by {
          forall i | 0 <= i < |first| ensures !IsSpace(first[i]) {
            if i > 0 {
              assert first[i] == rest[0][i - 1];
            }
          }
        }
        assert Split(s, sep) == [first] + rest[1..];
      }
    }
  }

  function UpperChar(c: char): char
  {
    if 'a' <= c <= 'z' then (c as int - 32) as char else c
  }

  /** ASCII upper-casing, character by character. */
  function Upper(s: string): (r: string)
    ensures |r| == |s|
    ensures forall i | 0 <= i < |s| :: r[i] == UpperChar(s[i])
  {
    if s == [] then [] else [UpperChar(s[0])] + Upper(s[1..])
  }

  /** Python's `s[:n]` and JavaScript's `s.substring(0, n)` for `n >= 0`. */
  function Prefix(s: string, n: nat): string
  {
    if n >= |s| then s else s[..n]
  }
}
