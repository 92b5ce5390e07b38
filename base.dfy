/** Shared vocabulary of the model: optional values, bytes, the JavaScript
    notions of white space, case and string splitting that the server relies
    on, and insertion-ordered objects (a JavaScript object whose keys are
    enumerated in the order they were first assigned). */
module Base {

  datatype Option<T> = None | Some(value: T) {
    function GetOr(default: T): T {
      if Some? then value else default
    }
  }

  newtype byte = x: int | 0 <= x < 256

  // ---------------------------------------------------------------------
  // Characters and strings
  // ---------------------------------------------------------------------

  /** The characters matched by the regular-expression class \s, which are
      also the ones String.prototype.trim removes. */
  predicate IsSpace(c: char) {
    c == ' ' || c == '\t' || c == '\n' || c == '\r' || c == '\U{000B}' || c == '\U{000C}'
    || c == '\U{00A0}' || c == '\U{1680}' || ('\U{2000}' <= c <= '\U{200A}')
    || c == '\U{2028}' || c == '\U{2029}' || c == '\U{202F}' || c == '\U{205F}'
    || c == '\U{3000}' || c == '\U{FEFF}'
  }

  /** ASCII letters and digits plus underscore: the class \w. */
  predicate IsWordChar(c: char) {
    ('a' <= c <= 'z') || ('A' <= c <= 'Z') || ('0' <= c <= '9') || c == '_'
  }

  predicate IsDigit(c: char) {
    '0' <= c <= '9'
  }

  predicate AllDigits(s: string) {
    forall i | 0 <= i < |s| :: IsDigit(s[i])
  }

  /** The number a run of decimal digits denotes. */
  function DigitsValue(s: string): (n: nat)
    requires AllDigits(s)
  {
    if s == [] then 0 else 10 * DigitsValue(s[..|s| - 1]) + (s[|s| - 1] as int - '0' as int)
  }

  function ToUpperChar(c: char): char {
    if 'a' <= c <= 'z' then (c as int - 32) as char else c
  }

  function ToLowerChar(c: char): char {
    if 'A' <= c <= 'Z' then (c as int + 32) as char else c
  }

  function ToUpper(s: string): (r: string)
    ensures |r| == |s|
    ensures forall i | 0 <= i < |s| :: r[i] == ToUpperChar(s[i])
  {
    if s == [] then [] else [ToUpperChar(s[0])] + ToUpper(s[1..])
  }

  /** Upper-casing works character by character, so it distributes over
      concatenation. */
  lemma ToUpperAppend(a: string, b: string)
    ensures ToUpper(a + b) == ToUpper(a) + ToUpper(b)
  {
    var r, l := ToUpper(a + b), ToUpper(a) + ToUpper(b);
    forall i | 0 <= i < |r|
      ensures r[i] == l[i]
    {
      if i < |a| {
        assert (a + b)[i] == a[i];
      } else {
        assert (a + b)[i] == b[i - |a|];
      }
    }
  }

  function ToLower(s: string): (r: string)
    ensures |r| == |s|
    ensures forall i | 0 <= i < |s| :: r[i] == ToLowerChar(s[i])
  {
    if s == [] then [] else [ToLowerChar(s[0])] + ToLower(s[1..])
  }

  /** `s.replace(/\s+/g, '')`: every white-space character removed. */
  function RemoveSpaces(s: string): (r: string)
    ensures forall i | 0 <= i < |r| :: !IsSpace(r[i])
    ensures |r| <= |s|
  {
    if s == [] then []
    else if IsSpace(s[0]) then RemoveSpaces(s[1..])
    else [s[0]] + RemoveSpaces(s[1..])
  }

  function TrimStart(s: string): (r: string)
    ensures r == [] || !IsSpace(r[0])
    ensures exists k | 0 <= k <= |s| :: r == s[k..]
  {
    if s != [] && IsSpace(s[0]) then
      var r := TrimStart(s[1..]);
      var k :| 0 <= k <= |s[1..]| && r == s[1..][k..];
      assert r == s[k + 1..];
      r
    else
      assert s == s[0..];
      s
  }

  function TrimEnd(s: string): (r: string)
    ensures r == [] || !IsSpace(r[|r| - 1])
    ensures exists k | 0 <= k <= |s| :: r == s[..k]
  {
    if s != [] && IsSpace(s[|s| - 1]) then
      var r := TrimEnd(s[..|s| - 1]);
      var k :| 0 <= k <= |s| - 1 && r == s[..|s| - 1][..k];
      assert r == s[..k];
      r
    else
      assert s == s[..|s|];
      s
  }

  /** String.prototype.trim. */
  function Trim(s: string): (r: string)
    ensures r == [] || (!IsSpace(r[0]) && !IsSpace(r[|r| - 1]))
  {
    TrimEnd(TrimStart(s))
  }

  predicate StartsWith(s: string, prefix: string) {
    |prefix| <= |s| && s[..|prefix|] == prefix
  }

  /** String.prototype.includes. */
  predicate Contains(s: string, sub: string) {
    StartsWith(s, sub) || (s != [] && Contains(s[1..], sub))
  }

  /** `s.split(c)` for a one-character separator. */
  function Split(s: string, c: char): (r: seq<string>)
    ensures |r| >= 1
    ensures forall i | 0 <= i < |r| :: c !in r[i]
  {
    if s == [] then [[]]
    else
      var rest := Split(s[1..], c);
      if s[0] == c then [[]] + rest
      else [[s[0]] + rest[0]] + rest[1..]
  }

  /** The strings `f` gives for the elements, one after the other. */
  function ConcatMap<T>(xs: seq<T>, f: T -> string): string {
    if xs == [] then "" else ConcatMap(xs[..|xs| - 1], f) + f(xs[|xs| - 1])
  }

  lemma {:induction false} ConcatMapAppend<T>(a: seq<T>, b: seq<T>, f: T -> string)
    ensures ConcatMap(a + b, f) == ConcatMap(a, f) + ConcatMap(b, f)
    decreases |b|
  {
    if b == [] {
      assert a + b == a;
    } else {
      var n := |b| - 1;
      assert (a + b)[..|a + b| - 1] == a + b[..n];
      ConcatMapAppend(a, b[..n], f);
    }
  }

  lemma ConcatMapPair<T>(x: T, y: T, f: T -> string)
    ensures ConcatMap([x, y], f) == f(x) + f(y)
  {
    var xs, one := [x, y], [x];
    assert xs[..|xs| - 1] == one && xs[|xs| - 1] == y;
    assert one[..|one| - 1] == [] && one[|one| - 1] == x;
    assert ConcatMap(one, f) == "" + f(x) == f(x);
  }

  lemma ConcatMapSnoc<T>(xs: seq<T>, j: nat, f: T -> string)
    requires j < |xs|
    ensures ConcatMap(xs[..j + 1], f) == ConcatMap(xs[..j], f) + f(xs[j])
  {
    assert xs[..j + 1][..j] == xs[..j];
  }

  /** A helper for loops that append to a string built so far. */
  lemma AppendAssoc<T>(a: seq<T>, b: seq<T>, c: seq<T>)
    ensures (a + b) + c == a + (b + c)
  {
  }

  /** A stretch of `s` made of three pieces holds each of them at its
      offset. */
  lemma ThreePieces<T>(s: seq<T>, from: nat, to: nat, a: seq<T>, m: seq<T>, b: seq<T>)
    requires from <= to <= |s| && s[from..to] == a + m + b
    ensures s[from..from + |a|] == a
    ensures s[from + |a|..from + |a| + |m|] == m
    ensures s[from + |a| + |m|..to] == b
  {
    var w := s[from..to];
    forall i | 0 <= i < |w| ensures s[from + i] == w[i] {
    }
    forall i | 0 <= i < |a| ensures s[from + i] == a[i] {
      assert w[i] == a[i];
    }
    forall i | 0 <= i < |m| ensures s[from + |a| + i] == m[i] {
      assert w[|a| + i] == m[i];
    }
    forall i | 0 <= i < |b| ensures s[from + |a| + |m| + i] == b[i] {
      assert w[|a| + |m| + i] == b[i];
    }
    assert s[from..from + |a|] == a;
    assert s[from + |a|..from + |a| + |m|] == m;
    assert s[from + |a| + |m|..to] == b;
  }

  /** `parts.join(c)`. */
  function Join(parts: seq<string>, c: char): string {
    if parts == [] then []
    else if |parts| == 1 then parts[0]
    else parts[0] + [c] + Join(parts[1..], c)
  }

  lemma {:induction false} JoinSplit(s: string, c: char)
    ensures Join(Split(s, c), c) == s
  {
    if s != [] {
      JoinSplit(s[1..], c);
      var rest := Split(s[1..], c);
      if s[0] != c && |rest| > 1 {
        assert [[s[0]] + rest[0]] + rest[1..] == [[s[0]] + rest[0]] + rest[1..];
        assert Join(rest, c) == rest[0] + [c] + Join(rest[1..], c);
      }
    }
  }

  /** A string without the separator splits into itself, and one before a
      separator is the first piece. */
  lemma {:induction false} SplitAfter(a: string, c: char, b: string)
    requires c !in a
    ensures Split(a, c) == [a]
    ensures Split(a + [c] + b, c) == [a] + Split(b, c)
  {
    if a != [] {
      SplitAfter(a[1..], c, b);
      assert (a + [c] + b)[1..] == a[1..] + [c] + b;
      assert [a[0]] + a[1..] == a;
    } else {
      assert a + [c] + b == [c] + b;
    }
  }

  /** The last piece of a split is the text after the last separator. */
  lemma {:induction false} SplitLast(a: string, c: char, b: string)
    requires c !in b
    ensures var r := Split(a + [c] + b, c); |r| >= 2 && r[|r| - 1] == b
  {
    if a == [] {
      SplitAfter(b, c, []);
      assert a + [c] + b == [c] + b;
    } else {
      SplitLast(a[1..], c, b);
      assert (a + [c] + b)[1..] == a[1..] + [c] + b;
    }
  }

  /** Splitting joined pieces that hold no separator gives them back. */
  lemma {:induction false} SplitJoin(parts: seq<string>, c: char)
    requires parts != []
    requires forall i | 0 <= i < |parts| :: c !in parts[i]
    ensures Split(Join(parts, c), c) == parts
  {
    if |parts| == 1 {
      SplitAfter(parts[0], c, []);
    } else {
      SplitJoin(parts[1..], c);
      SplitAfter(parts[0], c, Join(parts[1..], c));
      assert parts == [parts[0]] + parts[1..];
    }
  }

  /** `xs.filter(x => x)` on strings: the empty ones dropped. */
  function NonEmpty(xs: seq<string>): (r: seq<string>)
    ensures forall i | 0 <= i < |r| :: r[i] != [] && r[i] in xs
    ensures |r| <= |xs|
  {
    if xs == [] then []
    else if xs[0] == [] then NonEmpty(xs[1..])
    else [xs[0]] + NonEmpty(xs[1..])
  }

  /** `s.split(c).filter(x => x)`: the non-empty pieces between separators. */
  function Segments(s: string, c: char): (r: seq<string>)
    ensures forall i | 0 <= i < |r| :: r[i] != [] && c !in r[i]
  {
    NonEmpty(Split(s, c))
  }

  /** Dropping empty texts keeps a list that has none. */
  lemma {:induction false} NonEmptyKeeps(xs: seq<string>)
    requires forall i | 0 <= i < |xs| :: xs[i] != []
    ensures NonEmpty(xs) == xs
  {
    if xs != [] {
      NonEmptyKeeps(xs[1..]);
    }
  }

  /** Non-empty segments without `c`, joined with `c`, are split back into
      themselves. */
  lemma SegmentsJoin(segs: seq<string>, c: char)
    requires forall i | 0 <= i < |segs| :: segs[i] != [] && c !in segs[i]
    ensures Segments(Join(segs, c), c) == segs
  {
    if segs == [] {
      assert Split([], c) == [[]];
    } else {
      SplitJoin(segs, c);
      NonEmptyKeeps(segs);
    }
  }

  /** `s.split(/\s*c\s*\/)`: split at `c`, absorbing the white space on both
      sides of every separator (but not at the two ends of `s`). */
  function SplitTrimmed(s: string, c: char): (r: seq<string>)
    requires !IsSpace(c)
    ensures |r| == |Split(s, c)|
  {
    var raw := Split(s, c);
    seq(|raw|, i requires 0 <= i < |raw| =>
      var left := if i > 0 then TrimStart(raw[i]) else raw[i];
      if i < |raw| - 1 then TrimEnd(left) else left)
  }
  /** Pieces without white space at their ends are kept as they are. */
  lemma SplitTrimmedPlain(s: string, c: char)
    requires !IsSpace(c)
    requires forall i | 0 <= i < |Split(s, c)| ::
      TrimStart(Split(s, c)[i]) == Split(s, c)[i] && TrimEnd(Split(s, c)[i]) == Split(s, c)[i]
    ensures SplitTrimmed(s, c) == Split(s, c)
  {
  }


  /** Decimal rendering of a natural number, as `${n}`. */
  function NatToString(n: nat): (r: string)
    ensures r != [] && forall i | 0 <= i < |r| :: IsDigit(r[i])
    decreases n
  {
    var d := ['0' + (n % 10) as char];
    if n < 10 then d else NatToString(n / 10) + d
  }

  /** `${i}` for an integer. */
  function IntToString(i: int): (r: string)
    ensures r != []
  {
    if i < 0 then "-" + NatToString(-i) else NatToString(i)
  }

  /** Reading back the digits `${n}` prints gives `n`. */
  lemma {:induction false} NatToStringValue(n: nat)
    ensures AllDigits(NatToString(n)) && DigitsValue(NatToString(n)) == n
    decreases n
  {
    var s := NatToString(n);
    if n >= 10 {
      var prefix := NatToString(n / 10);
      NatToStringValue(n / 10);
      assert s[..|s| - 1] == prefix;
    }
  }

  /** Different numbers print differently. */
  lemma NatToStringInjective(a: nat, b: nat)
    requires a != b
    ensures NatToString(a) != NatToString(b)
  {
    NatToStringValue(a);
    NatToStringValue(b);
  }

  /** Byte encoding of a string, as Buffer.from(string) does (UTF-8). */
  function Utf8(s: string): (r: seq<byte>)
    ensures |r| >= |s|
  {
    if s == [] then []
    else
      var c := s[0] as int;
      var head: seq<byte> :=
        if c < 0x80 then [c as byte]
        else if c < 0x800 then [(0xC0 + c / 64) as byte, (0x80 + c % 64) as byte]
        else if c < 0x10000 then
          [(0xE0 + c / 4096) as byte, (0x80 + (c / 64) % 64) as byte, (0x80 + c % 64) as byte]
        else
          [(0xF0 + c / 262144) as byte, (0x80 + (c / 4096) % 64) as byte,
           (0x80 + (c / 64) % 64) as byte, (0x80 + c % 64) as byte];
      head + Utf8(s[1..])
  }

  // ---------------------------------------------------------------------
  // Insertion-ordered objects
  // ---------------------------------------------------------------------

  /** A JavaScript object as the sequence of its own properties in
      enumeration order. */
  type Entries<V> = seq<(string, V)>

  function Keys<V>(m: Entries<V>): (r: seq<string>)
    ensures |r| == |m| && forall i | 0 <= i < |m| :: r[i] == m[i].0
  {
    if m == [] then [] else [m[0].0] + Keys(m[1..])
  }

  predicate HasKey<V>(m: Entries<V>, k: string) {
    exists i | 0 <= i < |m| :: m[i].0 == k
  }

  /** Each property appears once, as in every JavaScript object. */
  predicate DistinctKeys<V>(m: Entries<V>) {
    forall i, j | 0 <= i < j < |m| :: m[i].0 != m[j].0
  }

  /** `m[k]`: the value of the property, or None when it is absent. */
  function Lookup<V>(m: Entries<V>, k: string): (r: Option<V>)
    ensures r.Some? <==> HasKey(m, k)
    ensures r.Some? ==> exists i | 0 <= i < |m| :: m[i] == (k, r.value)
  {
    if m == [] then None
    else
      var rest := Lookup(m[1..], k);
      if rest.Some? then
        assert m[1..][0..] == m[1..];
        rest
      else if m[0].0 == k then Some(m[0].1)
      else None
  }

  /** Every property named `k` given the value `v`, in place. */
  function Replace<V>(m: Entries<V>, k: string, v: V): (r: Entries<V>)
    ensures Keys(r) == Keys(m)
    ensures HasKey(m, k) ==> Lookup(r, k) == Some(v)
    ensures forall k' | k' != k :: Lookup(r, k') == Lookup(m, k')
  {
    if m == [] then []
    else
      var rest := Replace(m[1..], k, v);
      var r := [if m[0].0 == k then (k, v) else m[0]] + rest;
      assert r[1..] == rest;
      assert HasKey(m, k) && m[0].0 != k ==> HasKey(m[1..], k);
      r
  }

  /** `m[k] = v`: an existing property keeps its place, a new one is
      appended. */
  function Put<V>(m: Entries<V>, k: string, v: V): (r: Entries<V>)
    ensures Lookup(r, k) == Some(v)
    ensures forall k' | k' != k :: Lookup(r, k') == Lookup(m, k')
    ensures HasKey(m, k) ==> Keys(r) == Keys(m)
    ensures !HasKey(m, k) ==> Keys(r) == Keys(m) + [k]
  {
    if HasKey(m, k) then Replace(m, k, v)
    else
      var r := m + [(k, v)];
      assert Lookup(r, k) == Some(v) by { LookupAppend(m, k, v, k); }
      forall k' | k' != k ensures Lookup(r, k') == Lookup(m, k') { LookupAppend(m, k, v, k'); }
      assert Keys(r) == Keys(m) + [k];
      r
  }

  lemma {:induction false} LookupAppend<V>(m: Entries<V>, k: string, v: V, k': string)
    ensures Lookup(m + [(k, v)], k') == if k' == k then Some(v) else Lookup(m, k')
  {
    if m != [] {
      assert (m + [(k, v)])[1..] == m[1..] + [(k, v)];
      LookupAppend(m[1..], k, v, k');
    }
  }

  /** `{...a, ...b}`: the properties of `b` assigned over those of `a`. */
  function Assign<V>(a: Entries<V>, b: Entries<V>): Entries<V>
    decreases |b|
  {
    if b == [] then a else Assign(Put(a, b[0].0, b[0].1), b[1..])
  }

  lemma {:induction false} AssignLookup<V>(a: Entries<V>, b: Entries<V>, k: string)
    ensures Lookup(Assign(a, b), k) == if HasKey(b, k) then Lookup(b, k) else Lookup(a, k)
    decreases |b|
  {
    if b != [] {
      AssignLookup(Put(a, b[0].0, b[0].1), b[1..], k);
      assert HasKey(b, k) <==> b[0].0 == k || HasKey(b[1..], k) by {
        if HasKey(b, k) && b[0].0 != k {
          var i :| 0 <= i < |b| && b[i].0 == k;
          assert b[1..][i - 1].0 == k;
        }
      }
    }
  }

  /** Assigning one more property after the others. */
  lemma {:induction false} AssignSnoc<V>(a: Entries<V>, b: Entries<V>, k: string, v: V)
    ensures Assign(a, b + [(k, v)]) == Put(Assign(a, b), k, v)
    decreases |b|
  {
    if b == [] {
      assert b + [(k, v)] == [(k, v)];
    } else {
      assert (b + [(k, v)])[1..] == b[1..] + [(k, v)];
      AssignSnoc(Put(a, b[0].0, b[0].1), b[1..], k, v);
    }
  }

  /** Assigning one more pair of a list: the step of a loop that assigns the
      pairs in turn. */
  lemma AssignPrefix<V>(pairs: Entries<V>, i: nat)
    requires i < |pairs|
    ensures Assign([], pairs[..i + 1]) == Put(Assign([], pairs[..i]), pairs[i].0, pairs[i].1)
  {
    var none: Entries<V> := [];
    assert pairs[..i + 1] == pairs[..i] + [(pairs[i].0, pairs[i].1)];
    AssignSnoc(none, pairs[..i], pairs[i].0, pairs[i].1);
  }

  /** No property of `a` is a property of `b`. */
  predicate Disjoint<V>(a: Entries<V>, b: Entries<V>) {
    forall i, j | 0 <= i < |a| && 0 <= j < |b| :: a[i].0 != b[j].0
  }

  lemma DisjointStep<V>(a: Entries<V>, b: Entries<V>)
    requires b != [] && DistinctKeys(b) && Disjoint(a, b)
    ensures !HasKey(a, b[0].0)
    ensures DistinctKeys(b[1..]) && Disjoint(a + [b[0]], b[1..])
  {
    var a' := a + [b[0]];
    forall i, j | 0 <= i < |a'| && 0 <= j < |b[1..]| ensures a'[i].0 != b[1..][j].0 {
      assert b[1..][j] == b[j + 1];
    }
  }

  lemma PutFresh<V>(m: Entries<V>, k: string, v: V)
    requires !HasKey(m, k)
    ensures Put(m, k, v) == m + [(k, v)]
  {
  }

  /** Spreading an object with none of `a`'s keys appends its properties. */
  lemma {:induction false} AssignFresh<V>(a: Entries<V>, b: Entries<V>)
    requires Disjoint(a, b) && DistinctKeys(b)
    ensures Assign(a, b) == a + b
    decreases |b|
  {
    if b == [] {
      assert a + b == a;
    } else {
      DisjointStep(a, b);
      var a' := a + [b[0]];
      calc {
        Assign(a, b);
        Assign(Put(a, b[0].0, b[0].1), b[1..]);
        { PutFresh(a, b[0].0, b[0].1); }
        Assign(a', b[1..]);
        { AssignFresh(a', b[1..]); }
        a' + b[1..];
        { assert b == [b[0]] + b[1..]; }
        a + b;
      }
    }
  }

  /** `delete m[k]`. */
  function Remove<V>(m: Entries<V>, k: string): (r: Entries<V>)
    ensures !HasKey(r, k)
    ensures forall k' | k' != k :: Lookup(r, k') == Lookup(m, k')
  {
    if m == [] then []
    else if m[0].0 == k then Remove(m[1..], k)
    else
      var rest := Remove(m[1..], k);
      assert ([m[0]] + rest)[1..] == rest;
      [m[0]] + rest
  }
}
