/** The few PHP string built-ins the converter relies on, with PHP's own rules:
    `explode` on a one-character separator, `trim` with its default character list,
    string concatenation with a separator (`implode`), and the truthiness of a string. */
module PhpStrings {

  /** The characters `trim` strips when called without a character list:
      space, tab, line feed, carriage return, NUL and vertical tab. */
  predicate IsTrimmable(c: char) {
    c == ' ' || c == '\t' || c == '\n' || c == '\r' || c == '\0' || c == '\U{B}'
  }

  predicate AllTrimmable(s: string) {
    forall i :: 0 <= i < |s| ==> IsTrimmable(s[i])
  }

  /** PHP's truthiness of a string: only "" and "0" are falsy. */
  predicate Truthy(s: string) {
    s != "" && s != "0"
  }

  /** `explode(sep, s)`: the pieces of `s` between occurrences of `sep`.
      There is always at least one piece, and no piece holds the separator. */
  function Explode(s: string, sep: char): (pieces: seq<string>)
    ensures |pieces| >= 1
  {
    if s == [] then [""]
    else
      var rest := Explode(s[1..], sep);
      if s[0] == sep then [""] + rest
      else [[s[0]] + rest[0]] + rest[1..]
  }

  /** No piece of an explosion holds the separator. */
  lemma {:induction false} ExplodeSeparatorFree(s: string, sep: char)
    ensures forall i :: 0 <= i < |Explode(s, sep)| ==> sep !in Explode(s, sep)[i]
  {
    if s != [] {
      ExplodeSeparatorFree(s[1..], sep);
      var rest := Explode(s[1..], sep);
      assert s[0] != sep ==> sep !in [s[0]] + rest[0];
    }
  }

  /** A string without the separator explodes to itself alone. */
  lemma {:induction false} ExplodeWithoutSeparator(s: string, sep: char)
    requires sep !in s
    ensures Explode(s, sep) == [s]
  {
    if s != [] {
      assert sep !in s[1..];
      ExplodeWithoutSeparator(s[1..], sep);
      assert [s[0]] + s[1..] == s;
    }
  }

  /** `implode(sep, pieces)`: the pieces in order with `sep` between neighbours. */
  function Implode(pieces: seq<string>, sep: string): string {
    if |pieces| == 0 then ""
    else if |pieces| == 1 then pieces[0]
    else pieces[0] + sep + Implode(pieces[1..], sep)
  }

  /** Splitting and joining again on the same separator gives the input back. */
  lemma {:induction false} ImplodeExplode(s: string, sep: char)
    ensures Implode(Explode(s, sep), [sep]) == s
  {
    if s != [] {
      var rest := Explode(s[1..], sep);
      ImplodeExplode(s[1..], sep);
      if s[0] == sep {
        assert Explode(s, sep) == [""] + rest;
      } else {
        var pieces := Explode(s, sep);
        if |rest| == 1 {
          assert pieces == [[s[0]] + rest[0]];
        } else {
          assert pieces[1..] == rest[1..];
          assert Implode(rest, [sep]) == rest[0] + [sep] + Implode(rest[1..], [sep]);
        }
        assert [s[0]] + s[1..] == s;
      }
    }
  }

  /** Exploding `a + t`, where `a` holds no separator, glues `a` onto the first piece of `t`. */
  lemma {:induction false} ExplodePrepend(a: string, t: string, sep: char)
    requires sep !in a
    ensures Explode(a + t, sep) == [a + Explode(t, sep)[0]] + Explode(t, sep)[1..]
  {
    if a != [] {
      ExplodePrepend(a[1..], t, sep);
      assert (a + t)[1..] == a[1..] + t;
      assert (a + t)[0] == a[0];
      assert [a[0]] + (a[1..] + Explode(t, sep)[0]) == a + Explode(t, sep)[0];
    } else {
      var pieces := Explode(t, sep);
      assert a + t == t;
      assert a + pieces[0] == pieces[0];
      assert pieces == [pieces[0]] + pieces[1..];
    }
  }

  /** Splitting after a separator-free first piece yields that piece, then the pieces of
      the rest. */
  lemma ExplodeAt(a: string, sep: char, b: string)
    requires sep !in a
    ensures Explode(a + [sep] + b, sep) == [a] + Explode(b, sep)
  {
    var t := [sep] + b;
    assert a + [sep] + b == a + t;
    assert t[1..] == b;
    assert Explode(t, sep) == [""] + Explode(b, sep);
    ExplodePrepend(a, t, sep);
    assert a + "" == a;
  }

  /** Joining separator-free pieces and splitting again gives the pieces back. */
  lemma {:induction false} ExplodeImplode(pieces: seq<string>, sep: char)
    requires |pieces| >= 1
    requires forall i :: 0 <= i < |pieces| ==> sep !in pieces[i]
    ensures Explode(Implode(pieces, [sep]), sep) == pieces
  {
    if |pieces| == 1 {
      ExplodeWithoutSeparator(pieces[0], sep);
    } else {
      var tail := Implode(pieces[1..], [sep]);
      ExplodeImplode(pieces[1..], sep);
      assert Explode([sep] + tail, sep) == [""] + pieces[1..];
      assert Implode(pieces, [sep]) == pieces[0] + ([sep] + tail);
      ExplodePrepend(pieces[0], [sep] + tail, sep);
      assert pieces[0] + "" == pieces[0];
    }
  }

  /** `ltrim`: drops the leading trimmable characters. */
  function TrimLeft(s: string): string {
    if s != [] && IsTrimmable(s[0]) then TrimLeft(s[1..]) else s
  }

  /** `rtrim`: drops the trailing trimmable characters. */
  function TrimRight(s: string): string {
    if s != [] && IsTrimmable(s[|s| - 1]) then TrimRight(s[..|s| - 1]) else s
  }

  /** `trim`: both ends. */
  function Trim(s: string): string {
    TrimRight(TrimLeft(s))
  }

  /** `ltrim` keeps a suffix, drops only trimmable characters, and stops at the first
      character that is not trimmable. */
  lemma {:induction false} TrimLeftSuffix(s: string)
    ensures var r := TrimLeft(s);
            |r| <= |s| && r == s[|s| - |r|..] && AllTrimmable(s[..|s| - |r|])
            && (r != [] ==> !IsTrimmable(r[0]))
  {
    if s != [] && IsTrimmable(s[0]) {
      TrimLeftSuffix(s[1..]);
      var r := TrimLeft(s[1..]);
      assert s[..|s| - |r|] == [s[0]] + s[1..][..|s| - 1 - |r|];
    }
  }

  /** `rtrim` keeps a prefix, drops only trimmable characters, and stops at the last
      character that is not trimmable. */
  lemma {:induction false} TrimRightPrefix(s: string)
    ensures var r := TrimRight(s);
            |r| <= |s| && r == s[..|r|] && AllTrimmable(s[|r|..])
            && (r != [] ==> !IsTrimmable(r[|r| - 1]))
  {
    if s != [] && IsTrimmable(s[|s| - 1]) {
      var init := s[..|s| - 1];
      TrimRightPrefix(init);
      var r := TrimRight(init);
      assert s[|r|..] == init[|r|..] + [s[|s| - 1]];
    }
  }

  /** `trim` keeps an infix with only trimmable characters around it, and neither end of
      what it keeps is trimmable. */
  lemma TrimInfix(s: string)
    ensures var r := Trim(s);
            (exists i :: 0 <= i <= |s| - |r| && r == s[i..i + |r|]
                         && AllTrimmable(s[..i]) && AllTrimmable(s[i + |r|..]))
            && (r != [] ==> !IsTrimmable(r[0]) && !IsTrimmable(r[|r| - 1]))
  {
    var left := TrimLeft(s);
    var r := TrimRight(left);
    TrimLeftSuffix(s);
    TrimRightPrefix(left);
    var i := |s| - |left|;
    assert r == s[i..i + |r|];
    assert s[i + |r|..] == left[|r|..];
    assert AllTrimmable(s[..i]) && AllTrimmable(s[i + |r|..]);
  }

  /** A string with nothing to strip at either end is left as it is. */
  lemma TrimUntouched(s: string)
    requires s == [] || (!IsTrimmable(s[0]) && !IsTrimmable(s[|s| - 1]))
    ensures Trim(s) == s
  {
  }

  /** The first piece of an implosion is a prefix of it. */
  lemma ImplodeHead(pieces: seq<string>, sep: string)
    requires |pieces| >= 1
    ensures pieces[0] <= Implode(pieces, sep)
  {
  }

  /** Appending one piece to a non-empty implosion puts one separator in front of it. */
  lemma {:induction false} ImplodeSnoc(pieces: seq<string>, last: string, sep: string)
    ensures Implode(pieces + [last], sep) == if pieces == [] then last else Implode(pieces, sep) + sep + last
    decreases |pieces|
  {
    if |pieces| > 1 {
      ImplodeSnoc(pieces[1..], last, sep);
      assert (pieces + [last])[1..] == pieces[1..] + [last];
    } else if |pieces| == 1 {
      assert (pieces + [last])[1..] == [last];
    }
  }
}
