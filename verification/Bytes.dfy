/**
 Byte strings, and the few functions of Go's `strings` and `sort` packages that
 metric paths go through.
 */
module Bytes {

  type byte = b: int | 0 <= b < 256

  type bytes = seq<byte>

  const NEWLINE: byte := 10
  const SPACE: byte := 32
  const QUOTE: byte := 34
  const PERCENT: byte := 37
  const COMMA: byte := 44
  const DOT: byte := 46
  const SLASH: byte := 47
  const SEMICOLON: byte := 59
  const EQUALS: byte := 61
  const BACKSLASH: byte := 92
  const UNDERSCORE: byte := 95
  const LBRACE: byte := 123
  const RBRACE: byte := 125
  const TILDE: byte := 126

  /** The bytes as characters. */
  function Text(s: bytes): string {
    seq(|s|, i requires 0 <= i < |s| => s[i] as char)
  }

  lemma TextConcat(a: bytes, b: bytes)
    ensures Text(a + b) == Text(a) + Text(b)
  {
  }

  /** The named bytes are these characters. */
  lemma NamedBytes()
    ensures Text([NEWLINE, SPACE, QUOTE, PERCENT, COMMA, DOT, SLASH]) == "\n \"%,./"
    ensures Text([SEMICOLON, EQUALS, BACKSLASH, UNDERSCORE, LBRACE, RBRACE, TILDE]) == ";=\\_{}~"
  {
    assert "\n \"%,./" == ['\n', ' ', '\"', '%', ',', '.', '/'];
    assert ";=\\_{}~" == [';', '=', '\\', '_', '{', '}', '~'];
  }

  // ---------------------------------------------------------------- trimming

  /** Go's strings.TrimPrefix. */
  function TrimPrefix(s: bytes, prefix: bytes): bytes {
    if prefix <= s then s[|prefix|..] else s
  }

  function TrimLeft(s: bytes, c: byte): bytes {
    if s != [] && s[0] == c then TrimLeft(s[1..], c) else s
  }

  function TrimRight(s: bytes, c: byte): bytes {
    if s != [] && s[|s| - 1] == c then TrimRight(s[..|s| - 1], c) else s
  }

  /** Go's strings.Trim with a one-byte cutset. */
  function Trim(s: bytes, c: byte): bytes {
    TrimRight(TrimLeft(s, c), c)
  }

  /** A prefix is cut off where there is one; any other string is left alone. */
  lemma TrimPrefixMeans(s: bytes, prefix: bytes)
    ensures forall rest: bytes | s == prefix + rest :: TrimPrefix(s, prefix) == rest
    ensures (forall rest: bytes :: s != prefix + rest) ==> TrimPrefix(s, prefix) == s
  {
    if prefix <= s {
      assert s == prefix + s[|prefix|..];
    }
  }

  lemma {:induction false} TrimLeftMeans(s: bytes, c: byte) returns (i: nat)
    ensures i <= |s| && TrimLeft(s, c) == s[i..]
    ensures forall k | 0 <= k < i :: s[k] == c
    ensures i < |s| ==> s[i] != c
    decreases |s|
  {
    i := 0;
    if s != [] && s[0] == c {
      i := TrimLeftMeans(s[1..], c);
      assert s[1..][i..] == s[i + 1..];
      assert forall k | 0 < k < i + 1 :: s[k] == s[1..][k - 1];
      i := i + 1;
    }
  }

  lemma {:induction false} TrimRightMeans(s: bytes, c: byte) returns (j: nat)
    ensures j <= |s| && TrimRight(s, c) == s[..j]
    ensures forall k | j <= k < |s| :: s[k] == c
    ensures j > 0 ==> s[j - 1] != c
    decreases |s|
  {
    j := |s|;
    if s != [] && s[|s| - 1] == c {
      j := TrimRightMeans(s[..|s| - 1], c);
      assert s[..|s| - 1][..j] == s[..j];
    }
  }

  /** What is trimmed are bytes c at both ends, and none is left there. */
  lemma TrimMeans(s: bytes, c: byte) returns (i: nat, j: nat)
    ensures i <= j <= |s| && Trim(s, c) == s[i..j]
    ensures forall k | 0 <= k < i || j <= k < |s| :: s[k] == c
    ensures i < j ==> s[i] != c && s[j - 1] != c
  {
    i := TrimLeftMeans(s, c);
    var t := s[i..];
    j := TrimRightMeans(t, c);
    assert t[..j] == s[i..i + j];
    assert forall k | i + j <= k < |s| :: s[k] == t[k - i];
    j := i + j;
  }

  // --------------------------------------------------------------- splitting

  /** Go's strings.Split with a one-byte separator: never an empty list. */
  function Split(s: bytes, sep: byte): (parts: seq<bytes>)
    ensures parts != []
  {
    if s == [] then [[]]
    else
      var rest := Split(s[1..], sep);
      if s[0] == sep then [[]] + rest else [[s[0]] + rest[0]] + rest[1..]
  }

  lemma {:induction false} SplitWhole(s: bytes, sep: byte)
    requires sep !in s
    ensures Split(s, sep) == [s]
    decreases |s|
  {
    if s != [] {
      SplitWhole(s[1..], sep);
      assert [s[0]] + s[1..] == s;
    }
  }

  lemma {:induction false} SplitFirst(a: bytes, sep: byte, rest: bytes)
    requires sep !in a
    ensures Split(a + ([sep] + rest), sep) == [a] + Split(rest, sep)
    decreases |a|
  {
    var s := a + ([sep] + rest);
    if a == [] {
      assert s[1..] == rest;
    } else {
      SplitFirst(a[1..], sep, rest);
      assert s[1..] == a[1..] + ([sep] + rest);
      assert [a[0]] + a[1..] == a;
    }
  }

  /** The parts with the separator between them. */
  function Separated(parts: seq<bytes>, sep: byte): bytes
    requires parts != []
  {
    if |parts| == 1 then parts[0] else parts[0] + [sep] + Separated(parts[1..], sep)
  }

  /** The parts have no separator, and with separators between them they are the string. */
  lemma {:induction false} SplitMeans(s: bytes, sep: byte)
    ensures Separated(Split(s, sep), sep) == s
    ensures forall i | 0 <= i < |Split(s, sep)| :: sep !in Split(s, sep)[i]
    decreases |s|
  {
    if s != [] {
      var rest := Split(s[1..], sep);
      SplitMeans(s[1..], sep);
      assert s == [s[0]] + s[1..];
      if s[0] == sep {
        assert ([[]] + rest)[1..] == rest;
      } else {
        assert ([[s[0]] + rest[0]] + rest[1..])[1..] == rest[1..];
        if |rest| > 1 {
          assert [s[0]] + rest[0] + [sep] + Separated(rest[1..], sep)
              == [s[0]] + (rest[0] + [sep] + Separated(rest[1..], sep));
        }
      }
    }
  }

  // ---------------------------------------------------------- concatenation

  lemma PrefixCancels(p: bytes, a: bytes, b: bytes)
    ensures p + a == p + b <==> a == b
  {
    assert a == (p + a)[|p|..] && b == (p + b)[|p|..];
  }

  lemma ConcatAssociates(a: bytes, b: bytes, c: bytes)
    ensures a + (b + c) == (a + b) + c
  {
  }

  function Concat(parts: seq<bytes>): bytes {
    if parts == [] then [] else parts[0] + Concat(parts[1..])
  }

  lemma {:induction false} ConcatAppend(a: seq<bytes>, b: seq<bytes>)
    ensures Concat(a + b) == Concat(a) + Concat(b)
    decreases |a|
  {
    if a == [] {
      assert a + b == b;
    } else {
      ConcatAppend(a[1..], b);
      assert (a + b)[1..] == a[1..] + b;
    }
  }

  lemma ConcatSnoc(a: seq<bytes>, x: bytes)
    ensures Concat(a + [x]) == Concat(a) + x
  {
    ConcatAppend(a, [x]);
    assert Concat([x]) == x;
  }

  /** Positions in a list, after something was put in front of it. */
  function Shifted(at: seq<nat>): (later: seq<nat>)
    ensures |later| == |at| && forall k | 0 <= k < |at| :: later[k] == at[k] + 1
    ensures forall i: nat :: i in later <==> i > 0 && i - 1 in at
  {
    if at == [] then [] else
    var later := [at[0] + 1] + Shifted(at[1..]);
    assert forall i: nat :: i in at <==> i == at[0] || i in at[1..];
    later
  }

  // ---------------------------------------------------------------- ordering

  /** Go's `<=` on strings: bytewise lexicographic order. */
  predicate LexLe(a: bytes, b: bytes) {
    a == [] || (b != [] && (a[0] < b[0] || (a[0] == b[0] && LexLe(a[1..], b[1..]))))
  }

  /** The first byte that differs decides; a prefix comes first. */
  lemma {:induction false} LexLeMeans(a: bytes, b: bytes)
    ensures LexLe(a, b) <==>
              a <= b || exists i | 0 <= i < |a| && i < |b| :: a[..i] == b[..i] && a[i] < b[i]
    decreases |a|
  {
    if a != [] && b != [] && a[0] == b[0] {
      LexLeMeans(a[1..], b[1..]);
      assert a == [a[0]] + a[1..] && b == [b[0]] + b[1..];
      if i :| 0 <= i < |a[1..]| && i < |b[1..]| && a[1..][..i] == b[1..][..i] && a[1..][i] < b[1..][i] {
        assert a[..i + 1] == [a[0]] + a[1..][..i] == b[..i + 1];
        assert a[i + 1] < b[i + 1];
      }
      if i :| 0 <= i < |a| && i < |b| && a[..i] == b[..i] && a[i] < b[i] {
        assert a[1..][..i - 1] == a[..i][1..] == b[..i][1..] == b[1..][..i - 1];
        assert a[1..][i - 1] < b[1..][i - 1];
      }
      assert a <= b <==> a[1..] <= b[1..];
    } else if a != [] && b != [] {
      assert a[..0] == b[..0];
      if i :| 0 < i < |a| && i < |b| && a[..i] == b[..i] {
        assert a[..i][0] == b[..i][0];
      }
    }
  }

  lemma {:induction false} LexTotal(a: bytes, b: bytes)
    ensures LexLe(a, b) || LexLe(b, a)
    decreases |a|
  {
    if a != [] && b != [] {
      LexTotal(a[1..], b[1..]);
    }
  }

  lemma {:induction false} LexAntisymmetric(a: bytes, b: bytes)
    requires LexLe(a, b) && LexLe(b, a)
    ensures a == b
    decreases |a|
  {
    if a != [] && b != [] {
      LexAntisymmetric(a[1..], b[1..]);
      assert a == [a[0]] + a[1..] && b == [b[0]] + b[1..];
    }
  }

  lemma {:induction false} LexTransitive(a: bytes, b: bytes, c: bytes)
    requires LexLe(a, b) && LexLe(b, c)
    ensures LexLe(a, c)
    decreases |a|
  {
    if a != [] && b != [] && c != [] && a[0] == b[0] == c[0] {
      LexTransitive(a[1..], b[1..], c[1..]);
    }
  }

  predicate IsLeast(x: bytes, keys: set<bytes>) {
    x in keys && forall y | y in keys :: LexLe(x, y)
  }

  lemma LeastUnique(keys: set<bytes>)
    ensures forall x, y :: IsLeast(x, keys) && IsLeast(y, keys) ==> x == y
  {
    forall x, y | IsLeast(x, keys) && IsLeast(y, keys) ensures x == y {
      LexAntisymmetric(x, y);
    }
  }

  lemma {:induction false} LeastExists(keys: set<bytes>)
    requires keys != {}
    ensures exists x :: IsLeast(x, keys)
  {
    var k :| k in keys;
    if keys == {k} {
      LexTotal(k, k);
      assert IsLeast(k, keys);
    } else {
      assert keys == {k} + (keys - {k});
      LeastExists(keys - {k});
      var x :| IsLeast(x, keys - {k});
      LexTotal(x, k);
      LexTotal(k, k);
      if LexLe(x, k) {
        assert IsLeast(x, keys);
      } else {
        forall y | y in keys ensures LexLe(k, y) {
          if y != k {
            LexTransitive(k, x, y);
          }
        }
        assert IsLeast(k, keys);
      }
    }
  }

  predicate StrictlySorted(r: seq<bytes>) {
    forall i, j | 0 <= i < j < |r| :: r[i] != r[j] && LexLe(r[i], r[j])
  }

  /** The keys in the order Go's sort leaves them: the least key first. */
  function Sorted(keys: set<bytes>): (r: seq<bytes>)
    ensures |r| == |keys|
    ensures forall k :: k in r <==> k in keys
    ensures StrictlySorted(r)
  {
    if keys == {} then []
    else
      LeastExists(keys);
      LeastUnique(keys);
      var x :| x in keys && IsLeast(x, keys);
      [x] + Sorted(keys - {x})
  }

  /** Any strictly increasing listing of the keys is the sorted one. */
  lemma {:induction false} SortedUnique(keys: set<bytes>, r: seq<bytes>)
    requires forall k :: k in r <==> k in keys
    requires StrictlySorted(r)
    ensures r == Sorted(keys)
    decreases |r|
  {
    assert r != [] ==> r[0] in r;
    if keys != {} {
      var s := Sorted(keys);
      assert r != [] by {
        var k :| k in keys;
        assert k in r;
      }
      assert r[0] in r && s[0] in s;
      LexTotal(r[0], r[0]);
      LexTotal(s[0], s[0]);
      assert LexLe(r[0], s[0]) && LexLe(s[0], r[0]);
      LexAntisymmetric(r[0], s[0]);
      var rest := keys - {r[0]};
      forall k ensures k in r[1..] <==> k in rest {
        if k in rest {
          assert k in r;
        }
      }
      SortedUnique(rest, r[1..]);
      assert s[1..] == Sorted(rest) by {
        forall k ensures k in s[1..] <==> k in rest {
          if k in rest {
            assert k in s;
          }
        }
        SortedUnique(rest, s[1..]);
      }
      assert r == [r[0]] + r[1..] && s == [s[0]] + s[1..];
    }
  }
}
