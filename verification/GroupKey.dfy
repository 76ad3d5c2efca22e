// The text a group is filed under, and reading the group's values back from it.
module GroupKey {
  import opened IxDefs

  datatype ColType = TYPE_INT | TYPE_STRING

  datatype Value = IntValue(i: int) | StrValue(s: string)

  predicate HasType(v: Value, t: ColType) {
    match t
    case TYPE_INT => v.IntValue? && -0x8000_0000 <= v.i <= 0x7fff_ffff
    case TYPE_STRING => v.StrValue?
  }

  predicate HasTypes(vals: seq<Value>, types: seq<ColType>) {
    |vals| == |types| && forall i | 0 <= i < |vals| :: HasType(vals[i], types[i])
  }

  // ----- numbers -----

  function Digit(d: nat): char
    requires d < 10
  {
    '0' + d as char
  }

  predicate IsDigit(c: char) { '0' <= c <= '9' }

  function ShowNat(n: nat): (s: string)
    ensures s != [] && forall i | 0 <= i < |s| :: IsDigit(s[i])
  {
    if n < 10 then [Digit(n)] else ShowNat(n / 10) + [Digit(n % 10)]
  }

  /** operator<< on an int. */
  function ShowInt(i: int): (s: string) {
    if i < 0 then "-" + ShowNat(-i) else ShowNat(i)
  }

  /** The number a run of digits stands for. */
  function NatOf(s: string): nat
    requires forall i | 0 <= i < |s| :: IsDigit(s[i])
  {
    if s == [] then 0
    else
      assert IsDigit(s[|s| - 1]);
      NatOf(s[..|s| - 1]) * 10 + (s[|s| - 1] as int - '0' as int)
  }

  lemma {:induction false} NatOfShown(n: nat)
    ensures NatOf(ShowNat(n)) == n
  {
    if n >= 10 {
      NatOfShown(n / 10);
      var s := ShowNat(n);
      assert s[..|s| - 1] == ShowNat(n / 10);
    }
  }

  /** Numbers are written in decimal: a digit by itself, and behind the digits of n a digit d for 10 * n + d. */
  lemma Decimal(n: int, d: int)
    requires n > 0 && 0 <= d < 10
    ensures ShowInt(d) == ["0123456789"[d]]
    ensures ShowInt(10 * n + d) == ShowInt(n) + ShowInt(d)
    ensures ShowInt(-n) == "-" + ShowInt(n)
  {
    assert ShowNat(d) == [Digit(d)];
    assert (10 * n + d) / 10 == n && (10 * n + d) % 10 == d;
    assert ShowNat(10 * n + d) == ShowNat(n) + [Digit(d)];
  }

  predicate IsSpace(c: char) { c == ' ' || '\t' <= c <= '\r' }

  function SkipSpaces(s: string): string {
    if s != [] && IsSpace(s[0]) then SkipSpaces(s[1..]) else s
  }

  function DigitRun(s: string): (r: string)
    ensures r <= s && forall i | 0 <= i < |r| :: IsDigit(r[i])
  {
    if s != [] && IsDigit(s[0]) then [s[0]] + DigitRun(s[1..]) else []
  }

  /** The digits at the start of s as an int; none if there are no digits or the number is out of range. */
  function FromDigits(negative: bool, s: string): Option<int> {
    var digits := DigitRun(s);
    var n := if negative then 0 - NatOf(digits) else NatOf(digits);
    if digits == [] || n < -0x8000_0000 || n > 0x7fff_ffff then None else Some(n)
  }

  /** std::stoi: spaces, a sign, as many digits as there are. It throws without digits and out of range. */
  function Stoi(s: string): Option<int> {
    var t := SkipSpaces(s);
    if t != [] && (t[0] == '-' || t[0] == '+') then FromDigits(t[0] == '-', t[1..]) else FromDigits(false, t)
  }

  lemma {:induction false} DigitsThen(digits: string, rest: string)
    requires (forall i | 0 <= i < |digits| :: IsDigit(digits[i])) && (rest != [] ==> !IsDigit(rest[0]))
    ensures DigitRun(digits + rest) == digits
  {
    if digits == [] {
      assert digits + rest == rest;
    } else {
      assert (digits + rest)[1..] == digits[1..] + rest;
      DigitsThen(digits[1..], rest);
    }
  }

  lemma {:induction false} SpacesThen(spaces: string, rest: string)
    requires (forall i | 0 <= i < |spaces| :: IsSpace(spaces[i])) && (rest != [] ==> !IsSpace(rest[0]))
    ensures SkipSpaces(spaces + rest) == rest
  {
    if spaces == [] {
      assert spaces + rest == rest;
    } else {
      assert (spaces + rest)[1..] == spaces[1..] + rest;
      SpacesThen(spaces[1..], rest);
    }
  }

  function InRange(n: int): Option<int> { if -0x8000_0000 <= n <= 0x7fff_ffff then Some(n) else None }

  lemma DigitsRead(negative: bool, s: string, digits: string)
    requires DigitRun(s) == digits != []
    ensures FromDigits(negative, s) == InRange(if negative then 0 - NatOf(digits) else NatOf(digits))
  {
  }

  lemma SignRead(sign: string, u: string)
    requires (sign == "" && u != [] && IsDigit(u[0])) || sign == "-" || sign == "+"
    ensures sign + u != [] && !IsSpace((sign + u)[0]) && Stoi(sign + u) == FromDigits(sign == "-", u)
  {
    var t := sign + u;
    if sign == "" {
      assert t == u;
    } else {
      assert t[0] == sign[0] && t[1..] == u;
    }
  }

  lemma StoiSkips(spaces: string, t: string)
    requires (forall i | 0 <= i < |spaces| :: IsSpace(spaces[i])) && (t != [] ==> !IsSpace(t[0]))
    ensures Stoi(spaces + t) == Stoi(t)
  {
    SpacesThen(spaces, t);
  }

  /** What stoi reads: spaces, a sign if there is one, digits, and whatever is behind them. */
  lemma StoiReads(spaces: string, sign: string, digits: string, rest: string)
    requires (forall i | 0 <= i < |spaces| :: IsSpace(spaces[i])) && (sign == "" || sign == "-" || sign == "+")
    requires digits != [] && (forall i | 0 <= i < |digits| :: IsDigit(digits[i])) && (rest != [] ==> !IsDigit(rest[0]))
    ensures Stoi(spaces + (sign + (digits + rest))) == InRange(if sign == "-" then 0 - NatOf(digits) else NatOf(digits))
  {
    var u := digits + rest;
    assert u[0] == digits[0];
    SignRead(sign, u);
    StoiSkips(spaces, sign + u);
    DigitsThen(digits, rest);
    DigitsRead(sign == "-", u, digits);
  }

  /** Without a digit there it throws. */
  lemma StoiThrows(spaces: string, sign: string, rest: string)
    requires (forall i | 0 <= i < |spaces| :: IsSpace(spaces[i])) && (sign == "" || sign == "-" || sign == "+")
    requires rest != [] ==> !IsDigit(rest[0]) && (sign == "" ==> rest[0] !in ['-', '+'] && !IsSpace(rest[0]))
    ensures Stoi(spaces + (sign + rest)) == None
  {
    var t := sign + rest;
    if sign == "" {
      assert t == rest;
    } else {
      assert t[0] == sign[0] && t[1..] == rest;
    }
    StoiSkips(spaces, t);
  }

  lemma {:induction false} AllDigits(s: string)
    requires forall i | 0 <= i < |s| :: IsDigit(s[i])
    ensures DigitRun(s) == s
  {
    if s != [] { AllDigits(s[1..]); }
  }

  lemma StoiOfShown(i: int)
    requires -0x8000_0000 <= i <= 0x7fff_ffff
    ensures Stoi(ShowInt(i)) == Some(i)
  {
    var digits := ShowNat(if i < 0 then -i else i);
    NatOfShown(if i < 0 then -i else i);
    AllDigits(digits);
    assert IsDigit(digits[0]);
    assert SkipSpaces(ShowInt(i)) == ShowInt(i);
    if i < 0 { assert ShowInt(i)[1..] == digits; }
  }

  // ----- keys -----

  const SEP := '|'

  function Show(v: Value): string {
    match v
    case IntValue(i) => ShowInt(i)
    case StrValue(s) => s
  }

  /** get_group_key for a non-empty list of group columns. */
  function Render(vals: seq<Value>): string {
    if vals == [] then "" else Show(vals[0]) + [SEP] + Render(vals[1..])
  }

  predicate Clean(v: Value) {
    v.StrValue? ==> SEP !in v.s
  }

  lemma ShownIntIsClean(i: int)
    ensures SEP !in ShowInt(i)
  {
    var s := ShowInt(i);
    forall k | 0 <= k < |s| ensures s[k] != SEP {
      if i < 0 && k > 0 { assert IsDigit(ShowNat(-i)[k - 1]); }
    }
  }

  /** Up to the first separator. */
  function Token(s: string): (t: string)
    ensures t <= s && SEP !in t && (|t| < |s| ==> s[|t|] == SEP)
  {
    if s == [] || s[0] == SEP then [] else [s[0]] + Token(s[1..])
  }

  function Behind(s: string): (rest: string)
    ensures s != [] ==> |rest| < |s|
  {
    if |Token(s)| == |s| then [] else s[|Token(s)| + 1..]
  }

  function ReadValue(t: string, ty: ColType): Option<Value> {
    match ty
    case TYPE_INT => (match Stoi(t) case Some(n) => Some(IntValue(n)) case None => None)
    case TYPE_STRING => Some(StrValue(t))
  }

  /** The values read from a key; none if stoi throws. There may be fewer values than columns. */
  function Parse(s: string, types: seq<ColType>): Option<seq<Value>>
    decreases |types|
  {
    if types == [] || s == [] then Some([])
    else
      match ReadValue(Token(s), types[0])
      case None => None
      case Some(v) =>
        match Parse(Behind(s), types[1..])
        case None => None
        case Some(rest) => Some([v] + rest)
  }

  lemma {:induction false} TokenOf(t: string, rest: string)
    ensures SEP !in t ==> Token(t + [SEP] + rest) == t && Behind(t + [SEP] + rest) == rest
    ensures SEP in t ==> Token(t + [SEP] + rest) != t
  {
    var s := t + [SEP] + rest;
    if SEP !in t { TokenUnique(s, t); }
  }

  lemma {:induction false} TokenUnique(s: string, t: string)
    requires t <= s && |t| < |s| && SEP !in t && s[|t|] == SEP
    ensures Token(s) == t
  {
    if t != [] {
      assert s[0] == t[0] && t[0] in t;
      TokenUnique(s[1..], t[1..]);
      assert t == [t[0]] + t[1..];
    }
  }

  predicate AllClean(vals: seq<Value>) {
    forall i | 0 <= i < |vals| :: Clean(vals[i])
  }

  lemma CleanTail(vals: seq<Value>)
    requires vals != []
    ensures AllClean(vals) <==> Clean(vals[0]) && AllClean(vals[1..])
  {
    if Clean(vals[0]) && AllClean(vals[1..]) {
      forall i | 0 <= i < |vals| ensures Clean(vals[i]) {
        if i > 0 { assert vals[i] == vals[1..][i - 1]; }
      }
    }
  }

  /** The first value read from a key. */
  lemma FirstRead(v: Value, rest: string, ty: ColType)
    requires HasType(v, ty)
    ensures ReadValue(Token(Show(v) + [SEP] + rest), ty) == Some(v) <==> Clean(v)
    ensures Clean(v) ==> Behind(Show(v) + [SEP] + rest) == rest
  {
    TokenOf(Show(v), rest);
    if v.IntValue? {
      ShownIntIsClean(v.i);
      StoiOfShown(v.i);
    }
  }

  /** Reading a key back, one value at a time. */
  lemma ParseFirst(v: Value, rest: seq<Value>, ty: ColType, types: seq<ColType>)
    requires HasType(v, ty)
    ensures Parse(Render([v] + rest), [ty] + types) == Some([v] + rest)
         <==> Clean(v) && Parse(Render(rest), types) == Some(rest)
  {
    var key := Show(v) + [SEP] + Render(rest);
    assert ([v] + rest)[1..] == rest && ([ty] + types)[1..] == types;
    assert Render([v] + rest) == key;
    FirstRead(v, Render(rest), ty);
  }

  /** Reading back gives the original values exactly when no string contains the separator. */
  lemma {:induction false} RoundTrip(vals: seq<Value>, types: seq<ColType>)
    requires HasTypes(vals, types)
    ensures Parse(Render(vals), types) == Some(vals) <==> AllClean(vals)
    decreases |vals|
  {
    if vals != [] {
      RoundTrip(vals[1..], types[1..]);
      CleanTail(vals);
      ParseFirst(vals[0], vals[1..], types[0], types[1..]);
      assert vals == [vals[0]] + vals[1..] && types == [types[0]] + types[1..];
    }
  }

  // ----- when keys tell groups apart -----

  /** How many separators a value has in it. */
  function Seps(v: Value): nat { multiset(Show(v))[SEP] }

  /** Texts that agree up to a separator, with as many separators before it, agree before it and behind it. */
  lemma SameHead(x: string, r: string, y: string, u: string)
    requires x + [SEP] + r == y + [SEP] + u && multiset(x)[SEP] == multiset(y)[SEP]
    ensures x == y && r == u
  {
    if |x| < |y| {
      Longer(x, r, y, u);
    } else if |y| < |x| {
      Longer(y, u, x, r);
    } else {
      var s := x + [SEP] + r;
      assert s[..|x|] == x && (y + [SEP] + u)[..|x|] == y;
      assert s[|x| + 1..] == r && (y + [SEP] + u)[|x| + 1..] == u;
    }
  }

  lemma Longer(x: string, r: string, y: string, u: string)
    requires x + [SEP] + r == y + [SEP] + u && |x| < |y|
    ensures multiset(x)[SEP] < multiset(y)[SEP]
  {
    var s := x + [SEP] + r;
    assert s[..|x|] == x && s[|x|] == SEP;
    assert y == s[..|y|];
    var rest := y[|x| + 1..];
    assert y == x + [SEP] + rest;
    assert multiset(x + [SEP] + rest) == multiset(x) + multiset{SEP} + multiset(rest);
  }

  lemma ShowsApart(v: Value, w: Value, ty: ColType)
    requires HasType(v, ty) && HasType(w, ty) && Show(v) == Show(w)
    ensures v == w
  {
    if v.IntValue? {
      StoiOfShown(v.i);
      StoiOfShown(w.i);
    }
  }

  /** Groups with the same key are equal if each value has as many separators in both. */
  lemma {:induction false} SameSeps(a: seq<Value>, b: seq<Value>, types: seq<ColType>)
    requires HasTypes(a, types) && HasTypes(b, types) && Render(a) == Render(b)
    requires forall i | 0 <= i < |a| :: Seps(a[i]) == Seps(b[i])
    ensures a == b
    decreases |a|
  {
    if a != [] {
      SameHead(Show(a[0]), Render(a[1..]), Show(b[0]), Render(b[1..]));
      ShowsApart(a[0], b[0], types[0]);
      SameSeps(a[1..], b[1..], types[1..]);
      assert a == [a[0]] + a[1..] && b == [b[0]] + b[1..];
    }
  }

  function AllSeps(vals: seq<Value>): nat {
    if vals == [] then 0 else Seps(vals[0]) + AllSeps(vals[1..])
  }

  lemma {:induction false} RenderSeps(vals: seq<Value>)
    ensures multiset(Render(vals))[SEP] == |vals| + AllSeps(vals)
  {
    if vals != [] {
      RenderSeps(vals[1..]);
      assert multiset(Render(vals)) == multiset(Show(vals[0])) + multiset{SEP} + multiset(Render(vals[1..]));
    }
  }

  /** No value of a has more separators than its counterpart in b. */
  predicate FewerSeps(a: seq<Value>, b: seq<Value>) {
    |a| == |b| && forall i | 0 <= i < |a| :: Seps(a[i]) <= Seps(b[i])
  }

  lemma {:induction false} AllSepsGrow(a: seq<Value>, b: seq<Value>)
    requires FewerSeps(a, b)
    ensures AllSeps(a) <= AllSeps(b)
    ensures AllSeps(a) == AllSeps(b) ==> forall i | 0 <= i < |a| :: Seps(a[i]) == Seps(b[i])
  {
    if a != [] {
      var x, y := a[1..], b[1..];
      forall i | 0 <= i < |x| ensures Seps(x[i]) <= Seps(y[i]) { assert x[i] == a[i + 1] && y[i] == b[i + 1]; }
      AllSepsGrow(x, y);
      if AllSeps(a) == AllSeps(b) {
        forall i | 0 <= i < |a| ensures Seps(a[i]) == Seps(b[i]) {
          if i > 0 { assert a[i] == x[i - 1] && b[i] == y[i - 1]; }
        }
      }
    }
  }

  /** Groups with the same key are equal if all values of one have at most as many separators as those of the other. */
  lemma SameText(a: seq<Value>, b: seq<Value>, types: seq<ColType>)
    requires HasTypes(a, types) && HasTypes(b, types) && Render(a) == Render(b)
    requires FewerSeps(a, b) || FewerSeps(b, a)
    ensures a == b
  {
    RenderSeps(a);
    RenderSeps(b);
    if FewerSeps(a, b) {
      AllSepsGrow(a, b);
    } else {
      AllSepsGrow(b, a);
    }
    SameSeps(a, b, types);
  }

  /** In particular different groups have different keys if no string contains the separator. */
  lemma RenderInjective(a: seq<Value>, b: seq<Value>, types: seq<ColType>)
    requires HasTypes(a, types) && HasTypes(b, types)
    requires AllClean(a) && AllClean(b)
    ensures Render(a) == Render(b) <==> a == b
  {
    forall i | 0 <= i < |a| ensures Seps(a[i]) == Seps(b[i]) == 0 {
      if a[i].IntValue? { ShownIntIsClean(a[i].i); }
      if b[i].IntValue? { ShownIntIsClean(b[i].i); }
    }
    if Render(a) == Render(b) { SameSeps(a, b, types); }
  }

  // ----- texts that can be read in several ways -----

  /** n zeros, each with a separator behind it. */
  function ZeroText(n: nat): string { if n == 0 then "" else "0" + [SEP] + ZeroText(n - 1) }

  /** A string that looks like n + 1 columns: a zero, and n more behind separators. */
  function Word(n: nat): (s: string)
    ensures |s| == 2 * n + 1
  {
    if n == 0 then "0" else "0" + [SEP] + Word(n - 1)
  }

  lemma {:induction false} WordIsZeros(n: nat, rest: nat)
    ensures Word(n) + [SEP] + ZeroText(rest) == ZeroText(n + 1 + rest)
  {
    if n == 0 {
      assert ZeroText(1 + rest) == "0" + [SEP] + ZeroText(rest);
    } else {
      WordIsZeros(n - 1, rest);
      assert Word(n) + [SEP] + ZeroText(rest) == "0" + [SEP] + (Word(n - 1) + [SEP] + ZeroText(rest));
      assert ZeroText(n + 1 + rest) == "0" + [SEP] + ZeroText(n + rest);
    }
  }

  /** The columns a list of word lengths looks like. */
  function Width(words: seq<nat>): nat {
    if words == [] then 0 else words[0] + 1 + Width(words[1..])
  }

  /** A group of such strings, and of zeros, is rendered as zeros. */
  lemma {:induction false} RenderWords(vals: seq<Value>, words: seq<nat>)
    requires |vals| == |words| && forall i | 0 <= i < |vals| :: Show(vals[i]) == Word(words[i])
    ensures Render(vals) == ZeroText(Width(words))
  {
    if vals != [] {
      RenderWords(vals[1..], words[1..]);
      WordIsZeros(words[0], Width(words[1..]));
    }
  }

  /** With the separator two different groups can share a key. */
  lemma SharedKey()
    ensures Render([StrValue("a|b"), StrValue("c")]) == Render([StrValue("a"), StrValue("b|c")])
  {
    assert Render([StrValue("c")]) == "c|" && Render([StrValue("b|c")]) == "b|c|";
    assert [StrValue("a|b"), StrValue("c")][1..] == [StrValue("c")];
    assert [StrValue("a"), StrValue("b|c")][1..] == [StrValue("b|c")];
  }

  function After(read: seq<Value>, more: Option<seq<Value>>): Option<seq<Value>> {
    match more case None => None case Some(vals) => Some(read + vals)
  }

  lemma AfterNone(more: Option<seq<Value>>)
    ensures After([], more) == more
  {
    if more.Some? { assert [] + more.value == more.value; }
  }

  lemma AfterAll(read: seq<Value>)
    ensures After(read, Some([])) == Some(read)
  {
    assert read + [] == read;
  }

  lemma AfterTwo(read: seq<Value>, v: Value, more: Option<seq<Value>>)
    ensures After(read, After([v], more)) == After(read + [v], more)
  {
    if more.Some? { assert read + ([v] + more.value) == read + [v] + more.value; }
  }

  lemma ParseOne(v: Value, rest: string, types: seq<ColType>)
    requires types != [] && rest != [] && ReadValue(Token(rest), types[0]) == Some(v)
    ensures Parse(rest, types) == After([v], Parse(Behind(rest), types[1..]))
  {
  }

  lemma ParseStep(read: seq<Value>, v: Value, rest: string, types: seq<ColType>, i: nat)
    requires i < |types| && rest != [] && ReadValue(Token(rest), types[i]) == Some(v)
    ensures After(read, Parse(rest, types[i..])) == After(read + [v], Parse(Behind(rest), types[i + 1..]))
  {
    assert types[i..][1..] == types[i + 1..];
    ParseOne(v, rest, types[i..]);
    AfterTwo(read, v, Parse(Behind(rest), types[i + 1..]));
  }

  /** The loop that reads the values of a group back from its key. */
  method ParseGroupKey(key: string, types: seq<ColType>) returns (vals: Option<seq<Value>>)
    ensures vals == Parse(key, types)
  {
    var read: seq<Value>, rest, i := [], key, 0;
    assert types[0..] == types;
    AfterNone(Parse(key, types));
    while i < |types| && rest != []
      invariant i <= |types| && After(read, Parse(rest, types[i..])) == Parse(key, types)
    {
      var v := ReadValue(Token(rest), types[i]);
      if v.None? { return None; }
      ParseStep(read, v.value, rest, types, i);
      read := read + [v.value];
      rest := Behind(rest);
      i := i + 1;
    }
    AfterAll(read);
    vals := Some(read);
  }

  lemma RenderStep(vals: seq<Value>, i: nat)
    requires i < |vals|
    ensures Render(vals[i..]) == Show(vals[i]) + [SEP] + Render(vals[i + 1..])
  {
    assert vals[i..][1..] == vals[i + 1..];
  }

  /** get_group_key */
  method GetGroupKey(vals: seq<Value>) returns (key: string)
    ensures key == if vals == [] then "global" else Render(vals)
  {
    if vals == [] { return "global"; }
    key := "";
    for i := 0 to |vals|
      invariant key + Render(vals[i..]) == Render(vals)
    {
      RenderStep(vals, i);
      key := key + (Show(vals[i]) + [SEP]);
    }
  }
}
