/** Byte texts and the few library routines on them that the templates and the
    downloader call: splitting, joining, cutting and decimal printing. */
module Text {

  /** Go strings are byte sequences; every text of the model is one. */
  newtype byte = b: int | 0 <= b < 256

  type Text = seq<byte>

  const HASH: byte := 0x23      // #
  const PERCENT: byte := 0x25   // %
  const AMP: byte := 0x26       // &
  const STAR: byte := 0x2A      // *
  const PLUS: byte := 0x2B      // +
  const COMMA: byte := 0x2C     // ,
  const MINUS: byte := 0x2D     // -
  const DOT: byte := 0x2E       // .
  const SLASH: byte := 0x2F     // /
  const ZERO: byte := 0x30      // 0
  const COLON: byte := 0x3A     // :
  const SEMI: byte := 0x3B      // ;
  const EQUALS: byte := 0x3D    // =
  const QUERY: byte := 0x3F     // ?
  const LBRACE: byte := 0x7B    // {
  const RBRACE: byte := 0x7D    // }

  datatype Option<+T> = None | Some(value: T)

  predicate IsDigit(c: byte) { 0x30 <= c <= 0x39 }

  predicate IsAlpha(c: byte) { 0x41 <= c <= 0x5A || 0x61 <= c <= 0x7A }

  predicate IsHex(c: byte) { IsDigit(c) || 0x41 <= c <= 0x46 || 0x61 <= c <= 0x66 }

  predicate BraceFree(s: Text) { LBRACE !in s && RBRACE !in s }

  // ---------- splitting and joining ----------

  /** strings.Split with a one-element separator: always at least one piece. */
  function Split<T(==)>(s: seq<T>, d: T): (pieces: seq<seq<T>>)
    ensures |pieces| >= 1
  {
    if s == [] then [[]]
    else
      var rest := Split(s[1..], d);
      if s[0] == d then [[]] + rest else [[s[0]] + rest[0]] + rest[1..]
  }

  /** strings.Join. */
  function Join<T>(pieces: seq<seq<T>>, sep: seq<T>): seq<T>
  {
    if |pieces| == 0 then []
    else if |pieces| == 1 then pieces[0]
    else pieces[0] + sep + Join(pieces[1..], sep)
  }

  lemma {:induction false} JoinOfSplit<T>(s: seq<T>, d: T)
    ensures Join(Split(s, d), [d]) == s
    ensures forall piece :: piece in Split(s, d) ==> d !in piece
    ensures forall piece, c :: piece in Split(s, d) && c in piece ==> c in s
  {
    if s != [] {
      JoinOfSplit(s[1..], d);
      var pieces, rest := Split(s, d), Split(s[1..], d);
      if s[0] == d {
        assert pieces[1..] == rest;
      } else {
        assert pieces[1..] == rest[1..];
        assert Join(pieces, [d]) == [s[0]] + Join(rest, [d]);
        assert forall piece :: piece in pieces ==> piece == [s[0]] + rest[0] || piece in rest;
      }
      assert [s[0]] + s[1..] == s;
    }
  }

  lemma {:induction false} SplitWithout<T>(s: seq<T>, d: T)
    requires d !in s
    ensures Split(s, d) == [s]
  {
    if s != [] {
      SplitWithout(s[1..], d);
      assert [s[0]] + s[1..] == s;
    }
  }

  lemma {:induction false} SplitAtFirst<T>(a: seq<T>, d: T, b: seq<T>)
    requires d !in a
    ensures Split(a + [d] + b, d) == [a] + Split(b, d)
  {
    var s := a + [d] + b;
    if a == [] {
      assert s[1..] == b;
    } else {
      SplitAtFirst(a[1..], d, b);
      assert s[1..] == a[1..] + [d] + b;
      assert [a[0]] + a[1..] == a;
      var rest := [a[1..]] + Split(b, d);
      assert rest[1..] == Split(b, d);
    }
  }

  /** The pieces of a joined text are recovered when none of them holds the separator. */
  lemma {:induction false} SplitOfJoin<T>(pieces: seq<seq<T>>, d: T)
    requires pieces != []
    requires forall piece :: piece in pieces ==> d !in piece
    ensures Split(Join(pieces, [d]), d) == pieces
  {
    if |pieces| == 1 {
      SplitWithout(pieces[0], d);
    } else {
      SplitOfJoin(pieces[1..], d);
      SplitAtFirst(pieces[0], d, Join(pieces[1..], [d]));
    }
  }

  lemma {:induction false} JoinAppend<T>(pieces: seq<seq<T>>, last: seq<T>, sep: seq<T>)
    requires pieces != []
    ensures Join(pieces + [last], sep) == Join(pieces, sep) + sep + last
  {
    if |pieces| > 1 {
      JoinAppend(pieces[1..], last, sep);
      assert (pieces + [last])[1..] == pieces[1..] + [last];
    } else {
      assert (pieces + [last])[1..] == [last];
    }
  }

  lemma JoinFirst<T>(pieces: seq<seq<T>>, sep: seq<T>)
    requires pieces != [] && pieces[0] != []
    ensures Join(pieces, sep) != [] && Join(pieces, sep)[0] == pieces[0][0]
  {
  }

  lemma Associate<T>(a: seq<T>, b: seq<T>, c: seq<T>)
    ensures a + (b + c) == (a + b) + c
  {
  }

  lemma AppendThree<T>(a: seq<T>, b: seq<T>, c: seq<T>, d: seq<T>)
    ensures a + b + c + d == a + (b + c + d)
  {
  }

  /** Concatenations whose pieces are no longer than the other's are equal piece by piece. */
  lemma SamePieces<T>(a: seq<T>, b: seq<T>, c: seq<T>, d: seq<T>)
    requires |a| <= |c| && |b| <= |d|
    ensures a + b == c + d <==> a == c && b == d
  {
    if a + b == c + d {
      assert |a| == |c| && |b| == |d|;
      assert a == (a + b)[..|a|] && b == (a + b)[|a|..];
      assert c == (c + d)[..|c|] && d == (c + d)[|c|..];
    }
  }

  lemma SameFront<T>(a: seq<T>, b: seq<T>, c: seq<T>)
    ensures a + b == a + c <==> b == c
  {
    assert b == (a + b)[|a|..] && c == (a + c)[|a|..];
  }

  /** Joined texts that are piecewise no longer are equal only piece by piece. */
  lemma {:induction false} JoinsAgree<T>(a: seq<seq<T>>, b: seq<seq<T>>, sep: seq<T>)
    requires |a| == |b| && forall i :: 0 <= i < |a| ==> |a[i]| <= |b[i]|
    ensures |Join(a, sep)| <= |Join(b, sep)|
    ensures Join(a, sep) == Join(b, sep) <==> a == b
  {
    if |a| == 1 {
      assert a == [a[0]] && b == [b[0]];
    } else if |a| > 1 {
      JoinsAgree(a[1..], b[1..], sep);
      SamePieces(a[0] + sep, Join(a[1..], sep), b[0] + sep, Join(b[1..], sep));
      SamePieces(a[0], sep, b[0], sep);
      assert a == [a[0]] + a[1..] && b == [b[0]] + b[1..];
    }
  }

  lemma {:induction false} JoinElements<T>(pieces: seq<seq<T>>, sep: seq<T>, c: T)
    requires c in Join(pieces, sep)
    ensures c in sep || exists piece :: piece in pieces && c in piece
  {
    if |pieces| > 1 && c !in pieces[0] && c !in sep {
      JoinElements(pieces[1..], sep, c);
    }
  }

  function Repeat<T>(x: T, n: nat): (s: seq<T>)
    ensures |s| == n && forall i :: 0 <= i < n ==> s[i] == x
  {
    if n == 0 then [] else [x] + Repeat(x, n - 1)
  }

  lemma RepeatSum<T>(x: T, m: nat, n: nat)
    ensures Repeat(x, m) + Repeat(x, n) == Repeat(x, m + n)
    ensures Repeat(x, m) + [x] == Repeat(x, m + 1)
  {
  }

  predicate Only<T(==)>(s: seq<T>, x: T) {
    forall i :: 0 <= i < |s| ==> s[i] == x
  }

  lemma OnlyCommutes<T>(x: T, k: nat, t: seq<T>)
    requires Only(t, x)
    ensures Repeat(x, k) + t == t + Repeat(x, k)
  {
  }

  lemma {:induction false} FirstOther<T>(t: seq<T>, x: T)
    requires !Only(t, x)
    ensures exists n :: 0 <= n < |t| && t[n] != x && forall i :: 0 <= i < n ==> t[i] == x
  {
    if t[0] == x {
      assert forall i :: 1 <= i < |t| ==> t[i] == t[1..][i - 1];
      FirstOther(t[1..], x);
      var n :| 0 <= n < |t[1..]| && t[1..][n] != x && forall i :: 0 <= i < n ==> t[1..][i] == x;
      assert t[n + 1] != x && forall i :: 0 <= i < n + 1 ==> t[i] == x;
    }
  }

  /** Behind k copies of x, the first other element stands too late. */
  lemma OtherComesLate<T>(x: T, k: nat, t: seq<T>, rest: seq<T>, other: seq<T>)
    requires k > 0 && !Only(t, x)
    ensures Repeat(x, k) + t + rest != t + other
  {
    FirstOther(t, x);
    var n :| 0 <= n < |t| && t[n] != x && forall i :: 0 <= i < n ==> t[i] == x;
    assert (t + other)[n] == t[n];
    assert (Repeat(x, k) + t + rest)[n] == if n < k then x else t[n - k];
  }

  /** strings.Cut: the text before and after the first occurrence of d. */
  function Cut<T(==)>(s: seq<T>, d: T): (halves: (seq<T>, seq<T>))
    ensures d !in halves.0
    ensures if d in s then s == halves.0 + [d] + halves.1 else halves == (s, [])
  {
    if s == [] then ([], [])
    else if s[0] == d then ([], s[1..])
    else
      var (before, after) := Cut(s[1..], d);
      assert s == [s[0]] + s[1..];
      ([s[0]] + before, after)
  }

  lemma {:induction false} CutAtFirst<T>(a: seq<T>, d: T, b: seq<T>)
    requires d !in a
    ensures Cut(a + [d] + b, d) == (a, b)
  {
    var s := a + [d] + b;
    if a == [] {
      assert s[1..] == b;
    } else {
      CutAtFirst(a[1..], d, b);
      assert s[1..] == a[1..] + [d] + b;
      assert [a[0]] + a[1..] == a;
    }
  }

  // ---------- decimal numbers ----------

  /** The decimal digits of a natural number, without leading zeros. */
  function Digits(n: nat): (t: Text)
    ensures t != [] && forall c :: c in t ==> IsDigit(c)
  {
    if n < 10 then [ZERO + n as byte] else Digits(n / 10) + [ZERO + (n % 10) as byte]
  }

  /** The number a digit text denotes. */
  function DigitsValue(t: Text): nat
    requires forall c :: c in t ==> IsDigit(c)
  {
    if t == [] then 0
    else
      var last := t[|t| - 1];
      assert IsDigit(last);
      10 * DigitsValue(t[..|t| - 1]) + (last - ZERO) as nat
  }

  lemma {:induction false} ValueOfDigits(n: nat)
    ensures DigitsValue(Digits(n)) == n
  {
    if n >= 10 {
      ValueOfDigits(n / 10);
      assert Digits(n)[..|Digits(n)| - 1] == Digits(n / 10);
    }
  }
}
