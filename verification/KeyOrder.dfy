// The order on index keys (ix_compare): column by column, first difference decides.
module KeyOrder {

  /** One column of a key. A CHAR column is its bytes before the first NUL, which is all strncmp looks at;
      a FLOAT column is a real, compared exactly. */
  datatype Val = IntVal(i: int) | FloatVal(f: real) | StrVal(s: seq<nat>)

  /** A composite key. All keys of one index have the same columns, so the clauses below that
      order keys of different lengths or column types only serve to make the order total. */
  type Key = seq<Val>

  predicate StrLess(a: seq<nat>, b: seq<nat>) {
    b != [] && (a == [] || a[0] < b[0] || (a[0] == b[0] && StrLess(a[1..], b[1..])))
  }

  predicate ValLess(a: Val, b: Val) {
    match (a, b)
    case (IntVal(i), IntVal(j)) => i < j
    case (FloatVal(x), FloatVal(y)) => x < y
    case (StrVal(s), StrVal(t)) => StrLess(s, t)
    case (IntVal(_), _) => true
    case (FloatVal(_), StrVal(_)) => true
    case _ => false
  }

  predicate Less(a: Key, b: Key) {
    b != [] && (a == [] || ValLess(a[0], b[0]) || (a[0] == b[0] && Less(a[1..], b[1..])))
  }

  lemma {:induction false} StrLessOrder(a: seq<nat>, b: seq<nat>, c: seq<nat>)
    ensures !StrLess(a, a)
    ensures StrLess(a, b) && StrLess(b, c) ==> StrLess(a, c)
    ensures StrLess(a, b) || a == b || StrLess(b, a)
  {
    if a != [] {
      var b' := if b == [] then b else b[1..];
      var c' := if c == [] then c else c[1..];
      StrLessOrder(a[1..], b', c');
      if b != [] && a[0] == b[0] && a[1..] == b[1..] {
        assert a == [a[0]] + a[1..] == [b[0]] + b[1..] == b;
      }
    }
  }

  lemma ValLessOrder(a: Val, b: Val, c: Val)
    ensures !ValLess(a, a)
    ensures ValLess(a, b) && ValLess(b, c) ==> ValLess(a, c)
    ensures ValLess(a, b) || a == b || ValLess(b, a)
  {
    match (a, b, c) {
      case (StrVal(s), StrVal(t), StrVal(u)) => StrLessOrder(s, t, u);
      case (StrVal(s), StrVal(t), _) => StrLessOrder(s, t, t);
      case (StrVal(s), _, _) => StrLessOrder(s, s, s);
      case _ =>
    }
  }

  /** One string is below another just when they agree up to a place where the first ends or has the smaller byte. */
  lemma {:induction false} StrLessFirst(a: seq<nat>, b: seq<nat>)
    ensures StrLess(a, b) <==>
      exists n: nat :: n <= |a| && n < |b| && a[..n] == b[..n] && (n == |a| || a[n] < b[n])
  {
    if a != [] && b != [] && a[0] == b[0] {
      var x, y := a[1..], b[1..];
      StrLessFirst(x, y);
      if StrLess(a, b) {
        var n: nat :| n < |y| && n <= |x| && x[..n] == y[..n] && (n == |x| || x[n] < y[n]);
        assert a[..n + 1] == [a[0]] + x[..n] && b[..n + 1] == [b[0]] + y[..n];
      }
      forall n: nat | n <= |a| && n < |b| && a[..n] == b[..n] && (n == |a| || a[n] < b[n]) ensures StrLess(a, b) {
        assert n > 0;
        assert x[..n - 1] == a[..n][1..] == b[..n][1..] == y[..n - 1];
      }
    } else {
      assert a[..0] == b[..0];
    }
  }

  /** Keys of one index are ordered by the first column in which they differ. */
  lemma {:induction false} LessFirst(a: Key, b: Key)
    requires |a| == |b|
    ensures Less(a, b) <==> exists n: nat :: n < |a| && a[..n] == b[..n] && ValLess(a[n], b[n])
  {
    if a != [] {
      var x, y := a[1..], b[1..];
      LessFirst(x, y);
      assert a[..0] == b[..0];
      if a[0] == b[0] && Less(x, y) {
        var n: nat :| n < |x| && x[..n] == y[..n] && ValLess(x[n], y[n]);
        assert a[..n + 1] == [a[0]] + x[..n] && b[..n + 1] == [b[0]] + y[..n];
      }
      forall n: nat | n < |a| && a[..n] == b[..n] && ValLess(a[n], b[n]) ensures Less(a, b) {
        if n > 0 { assert x[..n - 1] == a[..n][1..] == b[..n][1..] == y[..n - 1]; }
      }
    }
  }

  /** Less is a strict total order. */
  lemma {:induction false} LessOrder(a: Key, b: Key, c: Key)
    ensures !Less(a, a)
    ensures Less(a, b) && Less(b, c) ==> Less(a, c)
    ensures Less(a, b) || a == b || Less(b, a)
  {
    if a != [] {
      var b' := if b == [] then b else b[1..];
      var c' := if c == [] then c else c[1..];
      LessOrder(a[1..], b', c');
      ValLessOrder(a[0], if b == [] then a[0] else b[0], if c == [] then a[0] else c[0]);
      if b != [] && a[0] == b[0] && a[1..] == b[1..] {
        assert a == [a[0]] + a[1..] == [b[0]] + b[1..] == b;
      }
    }
  }

  /** The order facts in the form proofs about many keys want them. */
  lemma Order()
    ensures forall a, b, c {:trigger Less(a, b), Less(b, c)} :: Less(a, b) && Less(b, c) ==> Less(a, c)
    ensures forall a, b {:trigger Less(a, b)} :: !(Less(a, b) && Less(b, a)) && (Less(a, b) || a == b || Less(b, a))
    ensures forall a {:trigger Less(a, a)} :: !Less(a, a)
  {
    forall a, b, c ensures Less(a, b) && Less(b, c) ==> Less(a, c) { LessOrder(a, b, c); }
    forall a, b ensures !(Less(a, b) && Less(b, a)) && (Less(a, b) || a == b || Less(b, a)) {
      LessOrder(a, b, a);
    }
    forall a ensures !Less(a, a) { LessOrder(a, a, a); }
  }

  /** strncmp on two string columns. */
  method StrCompare(a: seq<nat>, b: seq<nat>) returns (res: int)
    ensures res < 0 <==> StrLess(a, b)
    ensures res == 0 <==> a == b
    ensures res > 0 <==> StrLess(b, a)
  {
    var i := 0;
    while i < |a| && i < |b|
      invariant i <= |a| && i <= |b| && a[..i] == b[..i]
      invariant StrLess(a[i..], b[i..]) == StrLess(a, b) && StrLess(b[i..], a[i..]) == StrLess(b, a)
    {
      if a[i] != b[i] {
        assert a != b;
        return if a[i] < b[i] then -1 else 1;
      }
      i := i + 1;
    }
    if |a| == |b| { StrLessOrder(a, a, a); assert a[..i] == a && b[..i] == b; }
    return |a| - |b|;
  }

  /** ix_compare on one column. */
  method CompareColumn(a: Val, b: Val) returns (res: int)
    ensures res < 0 <==> ValLess(a, b)
    ensures res == 0 <==> a == b
    ensures res > 0 <==> ValLess(b, a)
    ensures a.IntVal? && b.IntVal? ==> (res < 0 <==> a.i < b.i) && (res > 0 <==> a.i > b.i)
    ensures a.FloatVal? && b.FloatVal? ==> (res < 0 <==> a.f < b.f) && (res > 0 <==> a.f > b.f)
    ensures a.StrVal? && b.StrVal? ==> (res < 0 <==> StrLess(a.s, b.s)) && (res > 0 <==> StrLess(b.s, a.s))
  {
    match (a, b) {
      case (IntVal(i), IntVal(j)) => res := if i < j then -1 else if i > j then 1 else 0;
      case (FloatVal(x), FloatVal(y)) => res := if x < y then -1 else if x > y then 1 else 0;
      case (StrVal(s), StrVal(t)) => res := StrCompare(s, t);
      case _ => res := if ValLess(a, b) then -1 else if ValLess(b, a) then 1 else 0;
    }
  }

  /** ix_compare on composite keys. */
  method IxCompare(a: Key, b: Key) returns (res: int)
    ensures res < 0 <==> Less(a, b)
    ensures res == 0 <==> a == b
    ensures res > 0 <==> Less(b, a)
    ensures |a| == |b| ==>
      (res < 0 <==> exists n: nat :: n < |a| && a[..n] == b[..n] && ValLess(a[n], b[n]))
      && (res > 0 <==> exists n: nat :: n < |a| && b[..n] == a[..n] && ValLess(b[n], a[n]))
  {
    if |a| == |b| {
      LessFirst(a, b);
      LessFirst(b, a);
    }
    var i := 0;
    while i < |a| && i < |b|
      invariant i <= |a| && i <= |b| && a[..i] == b[..i]
      invariant Less(a[i..], b[i..]) == Less(a, b) && Less(b[i..], a[i..]) == Less(b, a)
    {
      res := CompareColumn(a[i], b[i]);
      if res != 0 {
        ValLessOrder(a[i], b[i], a[i]);
        return;
      }
      i := i + 1;
    }
    if |a| == |b| { LessOrder(a, a, a); assert a[..i] == a && b[..i] == b; }
    return |a| - |b|;
  }
}
