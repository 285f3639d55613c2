/** String helpers with the semantics of the Java and JavaScript library calls
    the modelled code makes (indexOf, lastIndexOf, split, countOf, number
    formatting). Strings are sequences of characters. */
module Text {

  /** `s.indexOf(c)`: the first position of `c`, or -1. */
  function IndexOf(s: string, c: char): (r: int)
    ensures -1 <= r < |s|
    ensures r == -1 <==> c !in s
    ensures r >= 0 ==> s[r] == c && c !in s[..r]
    decreases |s|
  {
    if |s| == 0 then -1
    else if s[0] == c then 0
    else
      var k := IndexOf(s[1..], c);
      assert s[1..][..if k < 0 then 0 else k] == s[1..1 + if k < 0 then 0 else k];
      if k < 0 then -1 else k + 1
  }

  /** `s.lastIndexOf(c)`: the last position of `c`, or -1. */
  function LastIndexOf(s: string, c: char): (r: int)
    ensures -1 <= r < |s|
    ensures r == -1 <==> c !in s
    ensures r >= 0 ==> s[r] == c
    ensures forall i :: r < i < |s| ==> s[i] != c
    decreases |s|
  {
    if |s| == 0 then -1
    else if s[|s| - 1] == c then |s| - 1
    else LastIndexOf(s[..|s| - 1], c)
  }

  /** `s.substring(s.lastIndexOf(c) + 1)`: the longest suffix of `s` in which
      `c` does not occur. */
  function AfterLast(s: string, c: char): (r: string)
    ensures c !in r
    ensures |r| <= |s| && r == s[|s| - |r|..]
    ensures |r| < |s| ==> s[|s| - |r| - 1] == c
    ensures c !in s <==> r == s
  {
    var k := LastIndexOf(s, c);
    assert k == -1 ==> s[k + 1..] == s;
    s[k + 1..]
  }

  /** The text after a final `c` is what follows it, whatever precedes it. */
  lemma AfterLastOfSuffix(a: string, c: char, b: string)
    requires c !in b
    ensures AfterLast(a + [c] + b, c) == b
  {
    var s := a + [c] + b;
    var k := LastIndexOf(s, c);
    assert s[|a|] == c;
    assert forall i :: |a| < i < |s| ==> s[i] == b[i - |a| - 1];
    assert k == |a|;
    assert s[k + 1..] == b;
  }

  /** StringUtils.removeStart: drops `prefix` when `s` starts with it. */
  function RemoveStart(s: string, prefix: string): (r: string)
    ensures prefix <= s ==> prefix + r == s
    ensures !(prefix <= s) ==> r == s
  {
    if prefix <= s then s[|prefix|..] else s
  }

  /** Number of occurrences of `c` in `s` (goog.string.countOf for one element). */
  function CountOf<T(==)>(s: seq<T>, c: T): nat
  {
    if |s| == 0 then 0
    else CountOf(s[..|s| - 1], c) + (if s[|s| - 1] == c then 1 else 0)
  }

  /** Counting agrees with the multiplicity of `c` in the multiset of `s`. */
  lemma {:induction false} CountOfIsMultiplicity<T>(s: seq<T>, c: T)
    ensures CountOf(s, c) == multiset(s)[c]
    decreases |s|
  {
    if |s| > 0 {
      CountOfIsMultiplicity(s[..|s| - 1], c);
      assert s == s[..|s| - 1] + [s[|s| - 1]];
      assert multiset(s) == multiset(s[..|s| - 1]) + multiset{s[|s| - 1]};
    }
  }

  /** Counting over a longer prefix never gives a smaller count. */
  lemma {:induction false} CountOfPrefixMonotone<T>(s: seq<T>, c: T, i: nat, j: nat)
    requires i <= j <= |s|
    ensures CountOf(s[..i], c) <= CountOf(s[..j], c)
    decreases j - i
  {
    if i < j {
      CountOfPrefixMonotone(s, c, i, j - 1);
      assert s[..j][..j - 1] == s[..j - 1];
    }
  }

  /** Splitter.on(sep).split(s): the pieces between separators, empty ones included. */
  function Split(s: string, sep: char): (parts: seq<string>)
    ensures |parts| >= 1
    ensures forall i :: 0 <= i < |parts| ==> sep !in parts[i]
    decreases |s|
  {
    var k := IndexOf(s, sep);
    if k < 0 then [s]
    else
      var rest := Split(s[k + 1..], sep);
      assert forall i :: 1 <= i < |rest| + 1 ==> ([s[..k]] + rest)[i] == rest[i - 1];
      [s[..k]] + rest
  }

  /** The inverse of Split: the pieces glued back with the separator between them. */
  function Join(parts: seq<string>, sep: char): string
    requires |parts| >= 1
  {
    if |parts| == 1 then parts[0] else parts[0] + [sep] + Join(parts[1..], sep)
  }

  lemma JoinCons(a: string, rest: seq<string>, sep: char)
    requires |rest| >= 1
    ensures Join([a] + rest, sep) == a + [sep] + Join(rest, sep)
  {
    assert ([a] + rest)[1..] == rest;
  }

  lemma {:induction false} JoinSplit(s: string, sep: char)
    ensures Join(Split(s, sep), sep) == s
    decreases |s|
  {
    var k := IndexOf(s, sep);
    if k >= 0 {
      var head := s[..k];
      var tail := s[k + 1..];
      var rest := Split(tail, sep);
      assert Split(s, sep) == [head] + rest;
      JoinSplit(tail, sep);
      JoinCons(head, rest, sep);
      Around(s, k);
    }
  }

  /** A text is what comes before, at and after any of its positions. */
  lemma Around(s: string, k: nat)
    requires k < |s|
    ensures s == s[..k] + [s[k]] + s[k + 1..]
  {
  }

  /** The first separator of `a + [c] + b` is the one after `a` when `a` has none. */
  lemma {:induction false} IndexOfAfterPrefix(a: string, c: char, b: string)
    requires c !in a
    ensures IndexOf(a + [c] + b, c) == |a|
  {
    var s := a + [c] + b;
    assert s[|a|] == c;
    assert forall i :: 0 <= i < |a| ==> s[i] == a[i];
    var r := IndexOf(s, c);
    assert r <= |a|;
  }

  /** Splitting `a + [sep] + b` yields `a` followed by the pieces of `b`. */
  lemma SplitAfterPrefix(a: string, sep: char, b: string)
    requires sep !in a
    ensures Split(a + [sep] + b, sep) == [a] + Split(b, sep)
  {
    var s := a + [sep] + b;
    IndexOfAfterPrefix(a, sep, b);
    assert s[..|a|] == a;
    assert s[|a| + 1..] == b;
  }

  /** A text made of separators only splits into empty pieces. */
  lemma {:induction false} SplitSeparatorsOnly(s: string, sep: char)
    requires forall i :: 0 <= i < |s| ==> s[i] == sep
    ensures forall i :: 0 <= i < |Split(s, sep)| ==> Split(s, sep)[i] == ""
    decreases |s|
  {
    if |s| > 0 {
      assert IndexOf(s, sep) == 0;
      SplitSeparatorsOnly(s[1..], sep);
    }
  }

  /** Splitter.omitEmptyStrings: keeps the non-empty pieces, in order. */
  function OmitEmpty(parts: seq<string>): (r: seq<string>)
    ensures forall i :: 0 <= i < |r| ==> |r[i]| > 0
    ensures forall p :: p in r <==> p in parts && |p| > 0
    ensures multiset(r) == multiset(parts)["" := 0]
  {
    KeptPieces(parts);
    Kept(parts)
  }

  /** The filtering itself, piece by piece. */
  function Kept(parts: seq<string>): seq<string>
  {
    if |parts| == 0 then []
    else (if |parts[0]| > 0 then [parts[0]] else []) + Kept(parts[1..])
  }

  lemma {:induction false} KeptPieces(parts: seq<string>)
    ensures forall i :: 0 <= i < |Kept(parts)| ==> |Kept(parts)[i]| > 0
    ensures forall p :: p in Kept(parts) <==> p in parts && |p| > 0
    ensures multiset(Kept(parts)) == multiset(parts)["" := 0]
  {
    if |parts| > 0 {
      KeptPieces(parts[1..]);
      assert parts == [parts[0]] + parts[1..];
    }
  }

  /** Nothing is dropped from pieces that are all non-empty. */
  lemma {:induction false} OmitEmptyOfNonEmpty(parts: seq<string>)
    requires forall i :: 0 <= i < |parts| ==> |parts[i]| > 0
    ensures OmitEmpty(parts) == parts
  {
    if |parts| > 0 {
      OmitEmptyOfNonEmpty(parts[1..]);
      assert parts == [parts[0]] + parts[1..];
    }
  }

  /** Filtering a concatenation filters each side and keeps them in order;
      with the single-piece case this fixes the order of what is kept. */
  lemma OmitEmptyAppend(a: seq<string>, b: seq<string>)
    ensures OmitEmpty(a + b) == OmitEmpty(a) + OmitEmpty(b)
  {
    KeptAppend(a, b);
  }

  lemma {:induction false} KeptAppend(a: seq<string>, b: seq<string>)
    ensures Kept(a + b) == Kept(a) + Kept(b)
    decreases |a|
  {
    if |a| == 0 {
      assert a + b == b;
    } else {
      assert (a + b)[0] == a[0];
      assert (a + b)[1..] == a[1..] + b;
      KeptAppend(a[1..], b);
    }
  }

  /** The pieces glued together without any separator. */
  function Concat(parts: seq<string>): string
  {
    if |parts| == 0 then "" else parts[0] + Concat(parts[1..])
  }

  /** `s` with every `c` removed. */
  function Without(s: string, c: char): (r: string)
    ensures c !in r
  {
    if |s| == 0 then "" else (if s[0] == c then "" else [s[0]]) + Without(s[1..], c)
  }

  lemma {:induction false} WithoutAppend(a: string, b: string, c: char)
    ensures Without(a + b, c) == Without(a, c) + Without(b, c)
    decreases |a|
  {
    if |a| == 0 {
      assert a + b == b;
    } else {
      assert (a + b)[0] == a[0];
      assert (a + b)[1..] == a[1..] + b;
      WithoutAppend(a[1..], b, c);
    }
  }

  lemma {:induction false} WithoutAbsent(s: string, c: char)
    requires c !in s
    ensures Without(s, c) == s
    decreases |s|
  {
    if |s| > 0 {
      assert c !in s[1..];
      WithoutAbsent(s[1..], c);
    }
  }

  /** Nothing is left exactly when the text is made of `c` only. */
  lemma {:induction false} WithoutEmpty(s: string, c: char)
    ensures Without(s, c) == "" <==> forall i :: 0 <= i < |s| ==> s[i] == c
    decreases |s|
  {
    if |s| > 0 {
      WithoutEmpty(s[1..], c);
      assert forall i :: 1 <= i < |s| ==> s[i] == s[1..][i - 1];
    }
  }

  /** Gluing the pieces of a split gives the text without its separators. */
  lemma {:induction false} ConcatSplit(s: string, sep: char)
    ensures Concat(Split(s, sep)) == Without(s, sep)
    decreases |s|
  {
    var k := IndexOf(s, sep);
    if k < 0 {
      WithoutAbsent(s, sep);
      assert Concat([s]) == s + Concat([]);
    } else {
      var head, tail := s[..k], s[k + 1..];
      var rest := Split(tail, sep);
      assert Split(s, sep) == [head] + rest;
      ConcatSplit(tail, sep);
      ConcatCons(head, rest);
      assert Concat(Split(s, sep)) == head + Without(tail, sep);
      WithoutAroundSeparator(head, sep, tail);
      Around(s, k);
    }
  }

  lemma ConcatCons(a: string, rest: seq<string>)
    ensures Concat([a] + rest) == a + Concat(rest)
  {
    assert ([a] + rest)[1..] == rest;
  }

  lemma WithoutAroundSeparator(a: string, c: char, b: string)
    requires c !in a
    ensures Without(a + [c] + b, c) == a + Without(b, c)
  {
    var single: string := [c];
    WithoutAppend(a + single, b, c);
    WithoutAppend(a, single, c);
    WithoutAbsent(a, c);
    assert single[1..] == [];
    assert Without(single, c) == "";
  }

  /** Dropping empty pieces does not change what they glue to. */
  lemma {:induction false} ConcatOmitEmpty(parts: seq<string>)
    ensures Concat(OmitEmpty(parts)) == Concat(parts)
    decreases |parts|
  {
    if |parts| > 0 {
      ConcatOmitEmpty(parts[1..]);
      var rest := OmitEmpty(parts[1..]);
      if |parts[0]| > 0 {
        assert ([parts[0]] + rest)[1..] == rest;
      } else {
        assert [] + rest == rest;
      }
    }
  }

  /** Only empty pieces leave nothing behind. */
  lemma {:induction false} OmitEmptyOfEmpties(parts: seq<string>)
    requires forall i :: 0 <= i < |parts| ==> parts[i] == ""
    ensures OmitEmpty(parts) == []
  {
    if |parts| > 0 {
      OmitEmptyOfEmpties(parts[1..]);
    }
  }

  function DigitChar(d: nat): (c: char)
    requires d < 10
    ensures '0' <= c <= '9'
  {
    ('0' as int + d) as char
  }

  predicate IsDigits(s: string) {
    forall i :: 0 <= i < |s| ==> '0' <= s[i] <= '9'
  }

  /** Decimal digits of a natural number, most significant first. */
  function NatString(n: nat): (s: string)
    ensures |s| >= 1 && IsDigits(s)
  {
    if n < 10 then [DigitChar(n)] else NatString(n / 10) + [DigitChar(n % 10)]
  }

  /** JavaScript's number-to-string (and goog.string.format's %d) on an integer. */
  function IntString(n: int): (s: string)
    ensures |s| >= 1
    ensures '&' !in s && '=' !in s
  {
    if n < 0 then "-" + NatString(-n) else NatString(n)
  }

  /** Reads decimal digits back into a number. */
  function ParseNat(s: string): nat
    requires IsDigits(s)
  {
    if |s| == 0 then 0 else ParseNat(s[..|s| - 1]) * 10 + (s[|s| - 1] as int - '0' as int)
  }

  function ParseInt(s: string): int
  {
    if |s| > 0 && s[0] == '-' && IsDigits(s[1..]) then -(ParseNat(s[1..]) as int)
    else if IsDigits(s) then ParseNat(s)
    else 0
  }

  lemma {:induction false} NatStringRoundTrip(n: nat)
    ensures ParseNat(NatString(n)) == n
  {
    if n >= 10 {
      NatStringRoundTrip(n / 10);
      var s := NatString(n);
      assert s[..|s| - 1] == NatString(n / 10);
    }
  }

  /** IntString is read back exactly by ParseInt. */
  lemma IntStringRoundTrip(n: int)
    ensures ParseInt(IntString(n)) == n
  {
    if n < 0 {
      NatStringRoundTrip(-n);
      assert IntString(n)[1..] == NatString(-n);
    } else {
      NatStringRoundTrip(n);
    }
  }
}
