/** The few PHP values the installer front-end stores in its option and
    request arrays, PHP's emptiness test on them, and `explode('=', ...)`. */
module PhpValues {

  datatype Option<T> = None | Some(value: T)

  /** A value held in one of the script's arrays: a string, the boolean `true`
      that a bare `--flag` receives, or an integer (the `edition` placeholder
      of the LOAD request). */
  datatype Value = Str(s: string) | True | Int(n: int)

  /** PHP's `empty()`, which is also the falsy test of `?:` and `if`:
      the empty string, the string "0" and the integer 0 are empty. */
  predicate Empty(v: Value) {
    v == Str("") || v == Str("0") || v == Int(0)
  }

  const Separator: char := '='

  /** `explode('=', s)`: the pieces of `s` between its '=' characters. */
  function Explode(s: string): (parts: seq<string>)
    ensures |parts| >= 1
  {
    if s == [] then [""]
    else
      var rest := Explode(s[1..]);
      if s[0] == Separator then [""] + rest
      else [[s[0]] + rest[0]] + rest[1..]
  }

  /** No piece contains '='; the first piece is the text before the first
      '=' (or all of `s`); there is one piece exactly when `s` has no '='. */
  lemma {:induction false} ExplodeSpec(s: string)
    ensures forall i :: 0 <= i < |Explode(s)| ==> Separator !in Explode(s)[i]
    ensures Explode(s)[0] <= s
    ensures |Explode(s)[0]| < |s| ==> s[|Explode(s)[0]|] == Separator
    ensures |Explode(s)| == 1 <==> Separator !in s
    decreases |s|
  {
    if s != [] {
      ExplodeSpec(s[1..]);
      var rest := Explode(s[1..]);
      var parts := Explode(s);
      assert s == [s[0]] + s[1..];
      if s[0] == Separator {
        assert parts == [""] + rest;
        assert forall i :: 1 <= i < |parts| ==> parts[i] == rest[i - 1];
      } else {
        assert parts[0] == [s[0]] + rest[0];
        assert forall i :: 1 <= i < |parts| ==> parts[i] == rest[i];
      }
    }
  }

  /** `implode('=', parts)`, the inverse of Explode. */
  function Implode(parts: seq<string>): string
    requires |parts| >= 1
  {
    if |parts| == 1 then parts[0] else parts[0] + [Separator] + Implode(parts[1..])
  }

  /** Implode on a piece followed by at least one more. */
  lemma ImplodeCons(head: string, tail: seq<string>)
    requires |tail| >= 1
    ensures Implode([head] + tail) == head + [Separator] + Implode(tail)
  {
    assert ([head] + tail)[0] == head;
    assert ([head] + tail)[1..] == tail;
  }

  /** Splitting and re-joining gives back the argument. */
  lemma {:induction false} ImplodeExplode(s: string)
    ensures Implode(Explode(s)) == s
    decreases |s|
  {
    if s != [] {
      ImplodeExplode(s[1..]);
      if s[0] == Separator {
        ImplodeExplodeSeparator(s);
      } else {
        ImplodeExplodeChar(s);
      }
    }
  }

  /** The step of ImplodeExplode for a text that starts with '='. */
  lemma ImplodeExplodeSeparator(s: string)
    requires s != [] && s[0] == Separator
    requires Implode(Explode(s[1..])) == s[1..]
    ensures Implode(Explode(s)) == s
  {
    var rest := Explode(s[1..]);
    assert Explode(s) == [""] + rest;
    ImplodeCons("", rest);
    assert s == [s[0]] + s[1..];
  }

  /** The step of ImplodeExplode for a text that starts with another character. */
  lemma ImplodeExplodeChar(s: string)
    requires s != [] && s[0] != Separator
    requires Implode(Explode(s[1..])) == s[1..]
    ensures Implode(Explode(s)) == s
  {
    var rest := Explode(s[1..]);
    var first := [s[0]] + rest[0];
    assert Explode(s) == [first] + rest[1..];
    if |rest| == 1 {
      assert [first] + rest[1..] == [first];
      assert s == [s[0]] + s[1..];
    } else {
      ImplodeExplodeJoin(s[0], rest);
    }
  }

  /** Concatenation is associative. */
  lemma SeqAssoc<T>(a: seq<T>, b: seq<T>, c: seq<T>)
    ensures a + b + c == a + (b + c)
  {
  }

  /** Prefixing a character to the first of several pieces prefixes it to
      the joined text. */
  lemma ImplodeExplodeJoin(c: char, rest: seq<string>)
    requires |rest| >= 2
    ensures Implode([[c] + rest[0]] + rest[1..]) == [c] + Implode(rest)
  {
    var more := Implode(rest[1..]);
    assert Implode([[c] + rest[0]] + rest[1..]) == [c] + rest[0] + [Separator] + more by {
      ImplodeCons([c] + rest[0], rest[1..]);
    }
    assert Implode(rest) == rest[0] + [Separator] + more;
    assert [c] + rest[0] + [Separator] + more == [c] + (rest[0] + [Separator] + more) by {
      SeqAssoc([c], rest[0] + [Separator], more);
      assert [c] + rest[0] + [Separator] == [c] + (rest[0] + [Separator]);
    }
  }

  /** Prefixing a text without '=' extends only the first piece. */
  lemma {:induction false} ExplodePrefix(a: string, t: string)
    requires Separator !in a
    ensures Explode(a + t) == [a + Explode(t)[0]] + Explode(t)[1..]
  {
    var pt := Explode(t);
    if a != [] {
      assert (a + t)[1..] == a[1..] + t;
      assert (a + t)[0] == a[0];
      assert a[0] != Separator;
      ExplodePrefix(a[1..], t);
      var rest := Explode(a[1..] + t);
      assert rest == [a[1..] + pt[0]] + pt[1..];
      assert Explode(a + t) == [[a[0]] + rest[0]] + rest[1..];
      assert rest[0] == a[1..] + pt[0];
      assert rest[1..] == pt[1..];
      assert a + pt[0] == [a[0]] + (a[1..] + pt[0]);
    } else {
      assert a + t == t;
      assert a + pt[0] == pt[0];
      assert pt == [pt[0]] + pt[1..];
    }
  }

  /** Joining pieces that contain no '=' and splitting again gives them back. */
  lemma {:induction false} ExplodeImplode(parts: seq<string>)
    requires |parts| >= 1
    requires forall i :: 0 <= i < |parts| ==> Separator !in parts[i]
    ensures Explode(Implode(parts)) == parts
  {
    if |parts| == 1 {
      ExplodePrefix(parts[0], "");
      assert parts[0] + "" == parts[0];
    } else {
      var tail := Implode(parts[1..]);
      ExplodeImplode(parts[1..]);
      assert Implode(parts) == parts[0] + ([Separator] + tail);
      ExplodePrefix(parts[0], [Separator] + tail);
      assert ([Separator] + tail)[1..] == tail;
      assert Explode([Separator] + tail) == [""] + parts[1..];
      assert parts[0] + "" == parts[0];
      assert parts == [parts[0]] + parts[1..];
    }
  }
}
