/** Field-name normalisation of the request body (index.mjs:827-873): flat
    names written in bracket or dot notation (`a[b][c]`, `a.b`, `list[]`)
    become nested objects and arrays. */
module FormFields {
  import opened Base

  /** A JavaScript value as request bodies and their fields hold it. `Scalar`
      is a number or boolean by its text; `Bytes` is a Buffer. */
  datatype Value =
    | Null
    | Str(s: string)
    | Scalar(text: string)
    | Arr(items: seq<Value>)
    | Obj(fields: map<string, Value>)
    | File(content: seq<byte>, contentType: string, fileName: string)
    | Bytes(data: seq<byte>)

  /** The largest distance past the end of an array that one index may pad. */
  const MaxPadding := 10000

  // ---------------------------------------------------------------------
  // Splitting a field name into path fragments
  // ---------------------------------------------------------------------

  predicate IsSeparator(c: char) {
    c == '[' || c == ']' || c == '.'
  }

  /** A fragment that may name a path step: no separator, no white space. */
  predicate IsPlain(s: string) {
    s != [] && forall i | 0 <= i < |s| :: !IsSeparator(s[i]) && !IsSpace(s[i])
  }

  /** `/^-?\d+$/`: an optional minus sign and at least one digit. */
  predicate IsIndex(f: string) {
    if f != [] && f[0] == '-' then |f| >= 2 && AllDigits(f[1..]) else f != [] && AllDigits(f)
  }

  /** The property names under which an array keeps its elements. */
  predicate IsCanonicalIndex(f: string) {
    f != [] && AllDigits(f) && (|f| == 1 || f[0] != '0')
  }

  /** The number `+f` of an index fragment (`-0` is zero). */
  function IndexValue(f: string): int
    requires IsIndex(f)
  {
    if f[0] == '-' then 0 - DigitsValue(f[1..]) else DigitsValue(f)
  }

  /** `replaceAll('[]', '[-1]')`. */
  function MarkAppends(s: string): (r: string)
  {
    if |s| >= 2 && s[0] == '[' && s[1] == ']' then "[-1]" + MarkAppends(s[2..])
    else if s == [] then []
    else [s[0]] + MarkAppends(s[1..])
  }

  /** `split(/]\[|]|\[|\./)`: the pieces between separator characters. */
  function SplitAtSeparators(s: string): (r: seq<string>)
    ensures |r| >= 1
  {
    if s == [] then [[]]
    else
      var rest := SplitAtSeparators(s[1..]);
      if IsSeparator(s[0]) then [[]] + rest
      else [[s[0]] + rest[0]] + rest[1..]
  }

  /** The path a field name denotes (index.mjs:831-832). */
  function Fragments(name: string): (r: seq<string>)
    ensures forall i | 0 <= i < |r| :: r[i] != []
  {
    NonEmpty(SplitAtSeparators(MarkAppends(RemoveSpaces(name))))
  }

  // ---------------------------------------------------------------------
  // One property: walking the path and updating the tree
  // ---------------------------------------------------------------------

  function Min(a: int, b: int): int {
    if a <= b then a else b
  }

  function Nulls(n: nat): (r: seq<Value>)
    ensures |r| == n && forall i | 0 <= i < n :: r[i] == Null
  {
    seq(n, _ => Null)
  }

  /** `parent[f] ?? …`: the value already stored under `f`, where a null
      counts as absent. */
  function Existing(parent: Value, f: string): Option<Value> {
    match parent
    case Obj(fields) =>
      if f in fields && fields[f] != Null then Some(fields[f]) else None
    case Arr(items) =>
      if IsCanonicalIndex(f) && DigitsValue(f) < |items| && items[DigitsValue(f)] != Null
      then Some(items[DigitsValue(f)]) else None
    case _ => None
  }

  /** The value a step creates when nothing is stored yet: an array when the
      next fragment is an index, an object when it is a key, and the field's
      own value at the end of the path. */
  function Fresh(rest: seq<string>, leaf: Value): Value {
    if rest == [] then leaf else if IsIndex(rest[0]) then Arr([]) else Obj(map[])
  }

  /** The position that index fragment `f` writes in an array of length `len`
      (capped at `len + 10000`). */
  function Position(f: string, len: nat): int
    requires IsIndex(f)
  {
    Min(IndexValue(f), len + MaxPadding)
  }

  /** The tree `parent` after the walk of index.mjs:837-869 along `frags`
      stores `leaf`. The source mutates objects it reaches by reference; here
      each step returns the updated child. An append whose value is an array
      splices a copy of its elements in, so the rest of that walk changes a
      detached array and is lost, exactly as in the source. A step whose
      container does not fit the fragment (an array and a key, an object and
      an index, a string, number or boolean) stops the walk. So does a key
      on an uploaded file or a Buffer, which the source would assign as a
      property of that object. */
  function Walk(parent: Value, frags: seq<string>, leaf: Value): (r: Value)
    ensures parent.Obj? <==> r.Obj?
    ensures parent.Arr? <==> r.Arr?
    ensures !parent.Obj? && !parent.Arr? ==> r == parent
    ensures parent.Obj? ==> parent.fields.Keys <= r.fields.Keys
    ensures parent.Obj? && frags != [] ==>
      forall k | k in parent.fields && k != frags[0] :: r.fields[k] == parent.fields[k]
    ensures parent.Arr? ==> |parent.items| <= |r.items|
    decreases |frags|
  {
    if frags == [] then parent
    else
      var cur, rest := frags[0], frags[1..];
      var next := Existing(parent, cur).GetOr(Fresh(rest, leaf));
      match parent
      case Arr(items) =>
        if !IsIndex(cur) then parent
        else
          var index := Position(cur, |items|);
          if index <= -1 then
            if next.Arr? then Arr(items + next.items)
            else if next.Null? then parent
            else Arr(items + [Walk(next, rest, leaf)])
          else
            var padded := if |items| <= index then items + Nulls(index + 1 - |items|) else items;
            Arr(padded[index := Walk(next, rest, leaf)])
      case Obj(fields) =>
        if IsIndex(cur) then parent
        else Obj(fields[cur := Walk(next, rest, leaf)])
      case _ => parent
  }

  /** The body after its first `n` properties have been normalised. */
  function Normalized(fields: Entries<Value>): (r: Value)
    ensures r.Obj?
  {
    if fields == [] then Obj(map[])
    else
      var last := fields[|fields| - 1];
      Walk(Normalized(fields[..|fields| - 1]), Fragments(last.0), last.1)
  }

  /** `#normalizeFormFields`: one walk per property, in enumeration order. */
  method NormalizeFormFields(fields: Entries<Value>) returns (result: Value)
    ensures result == Normalized(fields)
    ensures result.Obj?
  {
    result := Obj(map[]);
    for i := 0 to |fields|
      invariant result == Normalized(fields[..i])
    {
      var name, value := fields[i].0, fields[i].1;
      assert fields[..i + 1][..i] == fields[..i];
      result := Walk(result, Fragments(name), value);
    }
    assert fields[..|fields|] == fields;
  }

  // ---------------------------------------------------------------------
  // Properties
  // ---------------------------------------------------------------------

  /** `{k0: {k1: … {kn: leaf}}}`. */
  function Nest(keys: seq<string>, leaf: Value): Value
    requires keys != []
  {
    if |keys| == 1 then Obj(map[keys[0] := leaf])
    else Obj(map[keys[0] := Nest(keys[1..], leaf)])
  }

  /** A path of keys written into an empty object builds nested objects. */
  lemma {:induction false} WalkBuildsNest(keys: seq<string>, leaf: Value)
    requires keys != []
    requires forall i | 0 <= i < |keys| :: !IsIndex(keys[i])
    ensures Walk(Obj(map[]), keys, leaf) == Nest(keys, leaf)
  {
    if |keys| > 1 {
      WalkBuildsNest(keys[1..], leaf);
    }
  }

  /** Appending (`-1`) to an object's key: a plain value is pushed onto the
      array stored there (created when absent), an array value is spliced in
      element by element, and a null adds nothing. */
  lemma AppendToKey(fields: map<string, Value>, k: string, leaf: Value)
    requires !IsIndex(k)
    requires k !in fields || fields[k] == Null || fields[k].Arr?
    ensures
      var before := if k in fields && fields[k].Arr? then fields[k].items else [];
      var after := if leaf.Arr? then before + leaf.items
                   else if leaf.Null? then before
                   else before + [leaf];
      Walk(Obj(fields), [k, "-1"], leaf) == Obj(fields[k := Arr(after)])
  {
    MinusOne();
    var before := if k in fields && fields[k].Arr? then fields[k].items else [];
    assert [k, "-1"][1..] == ["-1"];
    assert Existing(Obj(fields), k).GetOr(Fresh(["-1"], leaf)) == Arr(before);
    AppendToArray(before, leaf);
  }

  /** `-1` is an index fragment with the value -1 that names no element. */
  lemma MinusOne()
    ensures IsIndex("-1") && IndexValue("-1") == -1 && !IsCanonicalIndex("-1")
  {
    assert AllDigits("-1"[1..]) && "-1"[1..] == "1";
  }

  /** Appending to an array: an array value is spliced in, a null adds
      nothing and any other value is pushed. */
  lemma AppendToArray(items: seq<Value>, leaf: Value)
    ensures Walk(Arr(items), ["-1"], leaf) ==
      if leaf.Arr? then Arr(items + leaf.items)
      else if leaf.Null? then Arr(items)
      else Arr(items + [leaf])
  {
    MinusOne();
    assert Position("-1", |items|) == -1;
    assert Existing(Arr(items), "-1").GetOr(Fresh([], leaf)) == leaf;
    assert Walk(leaf, [], leaf) == leaf;
  }

  /** A field written as `list[]` with several values (as the query-string
      parser and the multipart decoder deliver repeated names) yields those
      values in submission order. */
  lemma AppendKeepsOrder(k: string, values: seq<Value>)
    requires !IsIndex(k)
    ensures Walk(Obj(map[]), [k, "-1"], Arr(values)) == Obj(map[k := Arr(values)])
  {
    AppendToKey(map[], k, Arr(values));
    assert [] + values == values;
    assert map[][k := Arr(values)] == map[k := Arr(values)];
  }

  /** Repeated single-valued appends to the same key keep arrival order. */
  lemma {:induction false} AppendsInOrder(init: map<string, Value>, k: string, leaves: seq<Value>)
    requires !IsIndex(k)
    requires k !in init
    requires forall i | 0 <= i < |leaves| :: leaves[i].Str?
    ensures AppendAll(Obj(init), k, leaves) == Obj(init[k := Arr(leaves)]) || leaves == []
  {
    if leaves != [] {
      var prefix, last := leaves[..|leaves| - 1], leaves[|leaves| - 1];
      assert forall i | 0 <= i < |prefix| :: prefix[i].Str?;
      AppendsInOrder(init, k, prefix);
      assert prefix + [last] == leaves;
      if prefix == [] {
        AppendFirst(init, k, last);
      } else {
        AppendNext(init, k, prefix, last);
      }
    }
  }

  /** The first `k[]` value creates the array. */
  lemma AppendFirst(init: map<string, Value>, k: string, leaf: Value)
    requires !IsIndex(k) && k !in init && leaf.Str?
    ensures Walk(Obj(init), [k, "-1"], leaf) == Obj(init[k := Arr([leaf])])
  {
    AppendToKey(init, k, leaf);
    assert [] + [leaf] == [leaf];
  }

  /** A later `k[]` value is pushed onto the array. */
  lemma AppendNext(init: map<string, Value>, k: string, prefix: seq<Value>, leaf: Value)
    requires !IsIndex(k) && leaf.Str?
    ensures Walk(Obj(init[k := Arr(prefix)]), [k, "-1"], leaf) == Obj(init[k := Arr(prefix + [leaf])])
  {
    var prev := init[k := Arr(prefix)];
    AppendToKey(prev, k, leaf);
    assert prev[k := Arr(prefix + [leaf])] == init[k := Arr(prefix + [leaf])];
  }


  /** The tree after one `k[]` walk per value, in order. */
  function AppendAll(tree: Value, k: string, leaves: seq<Value>): Value {
    if leaves == [] then tree
    else Walk(AppendAll(tree, k, leaves[..|leaves| - 1]), [k, "-1"], leaves[|leaves| - 1])
  }

  /** A non-negative index pads the array with nulls until the (capped)
      position exists, stores the value there and keeps every other
      element. */
  lemma PadsWithNulls(items: seq<Value>, f: string, leaf: Value)
    requires IsIndex(f) && IndexValue(f) >= 0
    ensures
      var index := Position(f, |items|);
      var r := Walk(Arr(items), [f], leaf);
      && 0 <= index <= |items| + MaxPadding
      && |r.items| == (if index < |items| then |items| else index + 1)
      && (forall j | 0 <= j < |items| && j != index :: r.items[j] == items[j])
      && (forall j | |items| <= j < index :: r.items[j] == Null)
      && r.items[index] == Existing(Arr(items), f).GetOr(leaf)
  {
    assert [f][1..] == [];
  }

  /** The value reached by following `frags` through what is already stored,
      when every step finds something non-null. */
  function Reached(tree: Value, frags: seq<string>): Option<Value>
    decreases |frags|
  {
    if frags == [] then Some(tree)
    else
      match Existing(tree, frags[0])
      case None => None
      case Some(child) =>
        if (tree.Arr? && IsIndex(frags[0])) || (tree.Obj? && !IsIndex(frags[0]))
        then Reached(child, frags[1..]) else None
  }

  /** A value already present at a path is kept: a later field naming the same
      path leaves the whole tree unchanged. */
  lemma {:induction false} ExistingIsKept(tree: Value, frags: seq<string>, leaf: Value)
    requires Reached(tree, frags).Some?
    ensures Walk(tree, frags, leaf) == tree
    decreases |frags|
  {
    if frags != [] {
      var cur, rest := frags[0], frags[1..];
      var child := Existing(tree, cur).value;
      ExistingIsKept(child, rest, leaf);
      match tree
      case Arr(items) =>
        assert DigitsValue(cur) < |items| && IndexValue(cur) == DigitsValue(cur);
        assert items[DigitsValue(cur) := child] == items;
      case Obj(fields) =>
        assert fields[cur := child] == fields;
    }
  }

  /** A value the next fragment cannot step into (index.mjs:841-866): an
      array under a key, an object under an index, or a string, number or
      boolean, whose `typeof` is not `'object'`. */
  predicate Clashes(v: Value, f: string) {
    (v.Arr? && !IsIndex(f)) || (v.Obj? && IsIndex(f)) || v.Str? || v.Scalar?
  }

  /** When the value reached after `j` steps clashes with fragment `j`, the
      walk breaks there without throwing, and every value on the way is
      written back as it was: the tree is unchanged. */
  lemma {:induction false} ClashStops(tree: Value, frags: seq<string>, j: nat, leaf: Value)
    requires j < |frags|
    requires Reached(tree, frags[..j]).Some?
    requires Clashes(Reached(tree, frags[..j]).value, frags[j])
    ensures Walk(tree, frags, leaf) == tree
    decreases j
  {
    if j > 0 {
      var cur, rest := frags[0], frags[1..];
      var child := Existing(tree, cur).value;
      assert frags[..j][0] == cur && frags[..j][1..] == rest[..j - 1];
      ClashStops(child, rest, j - 1, leaf);
      match tree
      case Arr(items) =>
        assert DigitsValue(cur) < |items| && IndexValue(cur) == DigitsValue(cur);
        assert items[DigitsValue(cur) := child] == items;
      case Obj(fields) =>
        assert fields[cur := child] == fields;
    }
  }

  /** A field whose path clashes with what earlier fields built is dropped. */
  lemma ClashDropsField(fields: Entries<Value>, name: string, value: Value, j: nat)
    requires j < |Fragments(name)|
    requires Reached(Normalized(fields), Fragments(name)[..j]).Some?
    requires Clashes(Reached(Normalized(fields), Fragments(name)[..j]).value, Fragments(name)[j])
    ensures Normalized(fields + [(name, value)]) == Normalized(fields)
  {
    var more := fields + [(name, value)];
    assert more[..|more| - 1] == fields;
    ClashStops(Normalized(fields), Fragments(name), j, value);
  }

  // ---------------------------------------------------------------------
  // Field names and their fragments
  // ---------------------------------------------------------------------

  lemma {:induction false} SplitAtSeparatorsConcat(a: string, c: char, b: string)
    requires IsSeparator(c)
    ensures SplitAtSeparators(a + [c] + b) == SplitAtSeparators(a) + SplitAtSeparators(b)
  {
    if a == [] {
      assert [c] + b == a + [c] + b;
      assert ([c] + b)[1..] == b;
    } else {
      var s := a + [c] + b;
      assert s[0] == a[0] && s[1..] == a[1..] + [c] + b;
      SplitAtSeparatorsConcat(a[1..], c, b);
      if !IsSeparator(a[0]) {
        ExtendFirstPiece(a[0], SplitAtSeparators(a[1..]), SplitAtSeparators(b));
      }
    }
  }

  /** Extending the first piece of a split commutes with appending pieces. */
  lemma ExtendFirstPiece(x: char, left: seq<string>, right: seq<string>)
    requires |left| >= 1
    ensures [[x] + (left + right)[0]] + (left + right)[1..] == ([[x] + left[0]] + left[1..]) + right
  {
    assert (left + right)[0] == left[0];
    assert (left + right)[1..] == left[1..] + right;
  }

  lemma {:induction false} SplitAtSeparatorsPlain(a: string)
    requires forall i | 0 <= i < |a| :: !IsSeparator(a[i])
    ensures SplitAtSeparators(a) == [a]
  {
    if a != [] {
      SplitAtSeparatorsPlain(a[1..]);
      assert [a[0]] + a[1..] == a;
    }
  }

  lemma {:induction false} NonEmptyConcat(xs: seq<string>, ys: seq<string>)
    ensures NonEmpty(xs + ys) == NonEmpty(xs) + NonEmpty(ys)
  {
    if xs != [] {
      NonEmptyConcat(xs[1..], ys);
      assert (xs + ys)[1..] == xs[1..] + ys;
    } else {
      assert xs + ys == ys;
    }
  }

  lemma {:induction false} RemoveSpacesKeeps(a: string)
    requires forall i | 0 <= i < |a| :: !IsSpace(a[i])
    ensures RemoveSpaces(a) == a
  {
    if a != [] {
      RemoveSpacesKeeps(a[1..]);
      assert [a[0]] + a[1..] == a;
    }
  }

  lemma {:induction false} MarkAppendsKeeps(a: string, b: string)
    requires forall i | 0 <= i < |a| :: a[i] != '['
    ensures MarkAppends(a + b) == a + MarkAppends(b)
  {
    if a != [] {
      MarkAppendsKeeps(a[1..], b);
      assert (a + b)[1..] == a[1..] + b;
      assert [a[0]] + (a[1..] + MarkAppends(b)) == a + MarkAppends(b);
    } else {
      assert a + b == b;
    }
  }

  /** `k.a.b…` with plain keys: the fragments are the keys. */
  function Dotted(keys: seq<string>): string
    requires keys != []
  {
    if |keys| == 1 then keys[0] else keys[0] + "." + Dotted(keys[1..])
  }

  lemma {:induction false} DottedAlphabet(keys: seq<string>)
    requires keys != [] && forall i | 0 <= i < |keys| :: IsPlain(keys[i])
    ensures forall i | 0 <= i < |Dotted(keys)| :: !IsSpace(Dotted(keys)[i]) && Dotted(keys)[i] != '['
  {
    if |keys| > 1 {
      DottedAlphabet(keys[1..]);
      var s := Dotted(keys);
      assert s == keys[0] + "." + Dotted(keys[1..]);
      forall i | 0 <= i < |s| ensures !IsSpace(s[i]) && s[i] != '[' {
        if i < |keys[0]| { assert s[i] == keys[0][i]; }
        else if i > |keys[0]| { assert s[i] == Dotted(keys[1..])[i - |keys[0]| - 1]; }
      }
    }
  }

  lemma {:induction false} SplitDotted(keys: seq<string>)
    requires keys != [] && forall i | 0 <= i < |keys| :: IsPlain(keys[i])
    ensures NonEmpty(SplitAtSeparators(Dotted(keys))) == keys
  {
    SplitAtSeparatorsPlain(keys[0]);
    if |keys| == 1 {
    } else {
      SplitDotted(keys[1..]);
      SplitAtSeparatorsConcat(keys[0], '.', Dotted(keys[1..]));
      assert keys[0] + "." + Dotted(keys[1..]) == keys[0] + ['.'] + Dotted(keys[1..]);
      NonEmptyConcat([keys[0]], SplitAtSeparators(Dotted(keys[1..])));
      assert NonEmpty([keys[0]]) == [keys[0]] by { assert [keys[0]][1..] == []; }
    }
  }

  /** `a.b.c` denotes the path a, b, c. */
  lemma DottedNameFragments(keys: seq<string>)
    requires keys != [] && forall i | 0 <= i < |keys| :: IsPlain(keys[i])
    ensures Fragments(Dotted(keys)) == keys
  {
    DottedAlphabet(keys);
    RemoveSpacesKeeps(Dotted(keys));
    MarkAppendsKeeps(Dotted(keys), []);
    assert Dotted(keys) + [] == Dotted(keys);
    SplitDotted(keys);
  }

  /** `k[]` denotes the path k, -1 (append). */
  lemma AppendNameFragments(k: string)
    requires IsPlain(k)
    ensures Fragments(k + "[]") == [k, "-1"]
  {
    AppendNameMarked(k);
    AppendNameSplit(k);
    NonEmptyConcat([k], ["-1"] + [[]]);
    NonEmptyConcat(["-1"], [[]]);
    assert NonEmpty([k]) == [k] by { assert [k][1..] == []; }
    assert NonEmpty(["-1"]) == ["-1"] by { assert ["-1"][1..] == []; }
  }

  /** `k[]` is rewritten to `k[-1]`. */
  lemma AppendNameMarked(k: string)
    requires IsPlain(k)
    ensures MarkAppends(RemoveSpaces(k + "[]")) == k + ['['] + "-1]"
  {
    RemoveSpacesKeeps(k + "[]");
    MarkAppendsKeeps(k, "[]");
    assert MarkAppends("[]") == "[-1]";
  }

  lemma AppendNameSplit(k: string)
    requires IsPlain(k)
    ensures SplitAtSeparators(k + ['['] + "-1]") == [k] + (["-1"] + [[]])
  {
    SplitAtSeparatorsConcat(k, '[', "-1]");
    assert "-1]" == "-1" + [']'] + [];
    SplitAtSeparatorsConcat("-1", ']', []);
    SplitAtSeparatorsPlain(k);
    SplitAtSeparatorsPlain("-1");
  }


  /** `[k0][k1]…`: keys written in brackets. */
  function Bracketed(keys: seq<string>): string {
    if keys == [] then [] else "[" + keys[0] + "]" + Bracketed(keys[1..])
  }

  lemma {:induction false} BracketedAlphabet(keys: seq<string>)
    requires forall i | 0 <= i < |keys| :: IsPlain(keys[i])
    ensures forall i | 0 <= i < |Bracketed(keys)| :: !IsSpace(Bracketed(keys)[i])
  {
    if keys != [] {
      BracketedAlphabet(keys[1..]);
      var s := Bracketed(keys);
      var k := keys[0];
      assert s == ['['] + k + [']'] + Bracketed(keys[1..]);
      forall i | 0 <= i < |s| ensures !IsSpace(s[i]) {
        if 1 <= i <= |k| { assert s[i] == k[i - 1]; }
        else if i > |k| + 1 { assert s[i] == Bracketed(keys[1..])[i - |k| - 2]; }
      }
    }
  }

  lemma {:induction false} MarkAppendsBracketed(keys: seq<string>)
    requires forall i | 0 <= i < |keys| :: IsPlain(keys[i])
    ensures MarkAppends(Bracketed(keys)) == Bracketed(keys)
  {
    if keys != [] {
      var k := keys[0];
      var tail := "]" + Bracketed(keys[1..]);
      var s := Bracketed(keys);
      assert s == "[" + (k + tail);
      assert s[1] == k[0];
      assert s[1..] == k + tail;
      MarkAppendsKeeps(k, tail);
      MarkAppendsBracketed(keys[1..]);
      assert tail[0] == ']' && tail[1..] == Bracketed(keys[1..]);
      assert MarkAppends(tail) == tail;
    }
  }

  lemma {:induction false} SplitBracketed(keys: seq<string>)
    requires forall i | 0 <= i < |keys| :: IsPlain(keys[i])
    ensures NonEmpty(SplitAtSeparators(Bracketed(keys))) == keys
  {
    if keys != [] {
      var k := keys[0];
      var rest := Bracketed(keys[1..]);
      assert Bracketed(keys) == [] + ['['] + (k + [']'] + rest);
      SplitAtSeparatorsConcat([], '[', k + [']'] + rest);
      SplitAtSeparatorsConcat(k, ']', rest);
      SplitAtSeparatorsPlain(k);
      SplitBracketed(keys[1..]);
      NonEmptyConcat([[]], [k] + SplitAtSeparators(rest));
      NonEmptyConcat([k], SplitAtSeparators(rest));
      assert NonEmpty([k]) == [k] by { assert [k][1..] == []; }
      assert NonEmpty([[]]) == [] by { var e: seq<string> := [[]]; assert e[1..] == []; }
    }
  }

  lemma BracketedNameClean(head: string, keys: seq<string>)
    requires IsPlain(head) && forall i | 0 <= i < |keys| :: IsPlain(keys[i])
    ensures MarkAppends(RemoveSpaces(head + Bracketed(keys))) == head + Bracketed(keys)
  {
    var s := head + Bracketed(keys);
    BracketedAlphabet(keys);
    forall i | 0 <= i < |s| ensures !IsSpace(s[i]) {
      if i >= |head| { assert s[i] == Bracketed(keys)[i - |head|]; }
    }
    RemoveSpacesKeeps(s);
    MarkAppendsKeeps(head, Bracketed(keys));
    MarkAppendsBracketed(keys);
  }

  lemma SplitBracketedTail(keys: seq<string>)
    requires keys != [] && forall i | 0 <= i < |keys| :: IsPlain(keys[i])
    ensures NonEmpty(SplitAtSeparators(keys[0] + [']'] + Bracketed(keys[1..]))) == keys
  {
    var x := keys[0] + [']'] + Bracketed(keys[1..]);
    assert Bracketed(keys) == [] + ['['] + x;
    SplitAtSeparatorsConcat([], '[', x);
    SplitBracketed(keys);
    NonEmptyConcat([[]], SplitAtSeparators(x));
    assert NonEmpty([[]]) == [] by { var e: seq<string> := [[]]; assert e[1..] == []; }
  }

  lemma SplitHeadBracketedCons(head: string, keys: seq<string>)
    requires IsPlain(head) && keys != [] && forall i | 0 <= i < |keys| :: IsPlain(keys[i])
    ensures NonEmpty(SplitAtSeparators(head + Bracketed(keys))) == [head] + keys
  {
    var x := keys[0] + [']'] + Bracketed(keys[1..]);
    assert head + Bracketed(keys) == head + ['['] + x;
    HeadSplit(head, x);
    SplitBracketedTail(keys);
    NonEmptyCons(head, SplitAtSeparators(x));
  }

  /** A plain name before `[` is the first piece. */
  lemma HeadSplit(head: string, x: string)
    requires IsPlain(head)
    ensures SplitAtSeparators(head + ['['] + x) == [head] + SplitAtSeparators(x)
  {
    SplitAtSeparatorsConcat(head, '[', x);
    SplitAtSeparatorsPlain(head);
  }

  lemma NonEmptyCons(head: string, parts: seq<string>)
    requires head != []
    ensures NonEmpty([head] + parts) == [head] + NonEmpty(parts)
  {
    NonEmptyConcat([head], parts);
    assert NonEmpty([head]) == [head] by { assert [head][1..] == []; }
  }

  lemma SplitHeadBracketed(head: string, keys: seq<string>)
    requires IsPlain(head) && forall i | 0 <= i < |keys| :: IsPlain(keys[i])
    ensures NonEmpty(SplitAtSeparators(head + Bracketed(keys))) == [head] + keys
  {
    if keys == [] {
      SplitAtSeparatorsPlain(head);
      assert NonEmpty([head]) == [head] by { assert [head][1..] == []; }
      assert head + Bracketed(keys) == head;
    } else {
      SplitHeadBracketedCons(head, keys);
    }
  }

  /** `a[b][c]` with plain keys denotes the path a, b, c. */
  lemma BracketedNameFragments(head: string, keys: seq<string>)
    requires IsPlain(head) && forall i | 0 <= i < |keys| :: IsPlain(keys[i])
    ensures Fragments(head + Bracketed(keys)) == [head] + keys
  {
    BracketedNameClean(head, keys);
    SplitHeadBracketed(head, keys);
  }

  /** A single field named `a.b.c` or `a[b][c]` (keys, not indexes) becomes
      the nested object {a: {b: {c: value}}}. */
  lemma NestedNames(keys: seq<string>, value: Value)
    requires keys != [] && forall i | 0 <= i < |keys| :: IsPlain(keys[i]) && !IsIndex(keys[i])
    ensures Normalized([(Dotted(keys), value)]) == Nest(keys, value)
    ensures Normalized([(keys[0] + Bracketed(keys[1..]), value)]) == Nest(keys, value)
  {
    DottedNameFragments(keys);
    BracketedNameFragments(keys[0], keys[1..]);
    assert [keys[0]] + keys[1..] == keys;
    WalkBuildsNest(keys, value);
    assert [(Dotted(keys), value)][..0] == [];
    assert [(keys[0] + Bracketed(keys[1..]), value)][..0] == [];
  }

  /** Appending list[] to an absent key of a body: the example of the
      form-field normaliser. */
  lemma ListFieldAppends(k: string, values: seq<Value>)
    requires IsPlain(k) && !IsIndex(k)
    ensures Normalized([(k + "[]", Arr(values))]) == Obj(map[k := Arr(values)])
  {
    AppendNameFragments(k);
    AppendKeepsOrder(k, values);
    assert [(k + "[]", Arr(values))][..0] == [];
  }
}
