/**
 Which document a Lua value is stored as, and which value a document is read back
 as, written out key by key.
 */
module Correspondence {
  import opened Common
  import opened Lua
  import opened Unfolding
  import opened Serializer
  import opened EncodedTrees
  import opened Deserializer
  import opened BuiltTrees
  import opened JsonGrammar
  import opened NumberTexts
  import Decimals
  import J = Json

  // ----- Reading -----

  ghost predicate IsCutName(key: Value, name: string) { key.Text? && IsCut(key.s, name) }

  /** The table has exactly the keys 1, 2, ..., n. */
  ghost predicate CountsTo(es: Fields, n: nat) {
    forall key :: Has(es, key) <==> exists k :: 1 <= k <= n && key == Numeric(Decimals.Decimal(false, k, [0]))
  }

  /**
   The value of the heap that a document stands for: an array is a table keyed 1,
   2, ..., an object a table keyed by its cut names, where of names cut to the same
   key the last one counts.
   */
  ghost predicate StandsFor(heap: Heap, v: Value, j: J.Json)
    decreases j
  {
    match j
    case Null => false
    case Bool(b) => v == Boolean(b)
    case Num(n) => v == Numeric(n)
    case Str(s) => v.Text? && IsCut(v.s, s)
    case Arr(items) =>
      && v.Table? && v.ref in heap && CountsTo(heap[v.ref], |items|)
      && forall k :: 1 <= k <= |items| ==>
           var key := Numeric(Decimals.Decimal(false, k, [0]));
           Has(heap[v.ref], key) && StandsFor(heap, At(heap[v.ref], key), items[k - 1])
    case Obj(members) =>
      && v.Table? && v.ref in heap
      && (forall key :: Has(heap[v.ref], key) ==>
            exists i :: 0 <= i < |members| && IsCutName(key, members[i].name))
      && (forall i, key :: 0 <= i < |members| && IsLastWith(members, i, key) ==>
            Has(heap[v.ref], key) && StandsFor(heap, At(heap[v.ref], key), members[i].value))
  }

  ghost predicate IsLastWith(members: seq<J.Member>, i: nat, key: Value)
    requires i < |members|
  {
    IsCutName(key, members[i].name) && forall k :: i < k < |members| ==> !IsCutName(key, members[k].name)
  }

  predicate NoLater(j: J.Json, i: nat, key: Value)
    requires IsTable(j)
  {
    forall k :: i <= k < Size(j) ==> KeyAt(j, k) != key
  }

  lemma NoLaterNext(j: J.Json, i: nat, key: Value)
    requires IsTable(j) && i < Size(j)
    ensures NoLater(j, i, key) <==> KeyAt(j, i) != key && NoLater(j, i + 1, key)
  {
  }

  lemma GrownNext(j: J.Json, i: nat, bs: seq<Branch>)
    requires IsTable(j) && i < Size(j) && GrownFrom(j, i, bs).Some?
    ensures Grown(ChildAt(j, i)).Some?
    ensures GrownFrom(j, i, bs) == GrownFrom(j, i + 1, SetEntry(bs, KeyAt(j, i), Grown(ChildAt(j, i)).value))
  {
  }

  /** The keys of the tree grown from a document are the keys of its entries. */
  lemma {:induction false} GrownKeys(j: J.Json, i: nat, bs: seq<Branch>, key: Value, t: Option<Tree>)
    requires IsTable(j) && i <= Size(j) && t == GrownFrom(j, i, bs) && t.Some?
    ensures t.value.Node?
    ensures Has(t.value.branches, key) <==> Has(bs, key) || !NoLater(j, i, key)
    ensures Has(bs, key) && NoLater(j, i, key) ==> At(t.value.branches, key) == At(bs, key)
    decreases Size(j) - i
  {
    if i < Size(j) {
      GrownNext(j, i, bs);
      NoLaterNext(j, i, key);
      var s := Grown(ChildAt(j, i)).value;
      AtSetEntry(bs, KeyAt(j, i), s, key);
      GrownKeys(j, i + 1, SetEntry(bs, KeyAt(j, i), s), key, t);
    }
  }

  lemma GrownHere(j: J.Json, i: nat, bs: seq<Branch>)
    requires IsTable(j) && i < Size(j) && GrownFrom(j, i, bs).Some?
    requires NoLater(j, i + 1, KeyAt(j, i))
    ensures var t := GrownFrom(j, i, bs).value;
            && t.Node? && Has(t.branches, KeyAt(j, i))
            && Grown(ChildAt(j, i)) == Some(At(t.branches, KeyAt(j, i)))
  {
    var key, s := KeyAt(j, i), Grown(ChildAt(j, i)).value;
    GrownNext(j, i, bs);
    AtSetEntry(bs, key, s, key);
    GrownKeys(j, i + 1, SetEntry(bs, key, s), key, GrownFrom(j, i, bs));
  }

  /** Under each key is the tree of the last entry with that key. */
  lemma {:induction false} GrownAt(j: J.Json, i: nat, bs: seq<Branch>, k: nat, t: Option<Tree>)
    requires IsTable(j) && i <= k < Size(j) && t == GrownFrom(j, i, bs) && t.Some?
    requires NoLater(j, k + 1, KeyAt(j, k))
    ensures t.value.Node? && Has(t.value.branches, KeyAt(j, k))
    ensures Grown(ChildAt(j, k)) == Some(At(t.value.branches, KeyAt(j, k)))
    decreases Size(j) - i
  {
    if i == k {
      GrownHere(j, i, bs);
    } else {
      GrownNext(j, i, bs);
      GrownAt(j, i + 1, SetEntry(bs, KeyAt(j, i), Grown(ChildAt(j, i)).value), k, t);
    }
  }

  lemma CutIsKey(members: seq<J.Member>, i: nat, key: Value)
    requires i < |members|
    ensures IsCutName(key, members[i].name) <==> KeyAt(J.Obj(members), i) == key
  {
    if IsCutName(key, members[i].name) {
      CutIsUnique(key.s, members[i].name);
    }
  }

  lemma {:induction false} GrownStandsFor(heap: Heap, v: Value, j: J.Json)
    requires Grown(j).Some? && LooksLike(heap, v, Grown(j).value)
    ensures StandsFor(heap, v, j)
    decreases j, 1
  {
    match j
    case Str(s) => assert IsCut(CString(s), s);
    case Arr(items) => GrownArray(heap, v, items);
    case Obj(members) => GrownObject(heap, v, members);
    case _ =>
  }

  lemma ArrayKeys(items: seq<J.Json>, key: Value)
    requires Grown(J.Arr(items)).Some?
    ensures Grown(J.Arr(items)).value.Node?
    ensures Has(Grown(J.Arr(items)).value.branches, key) <==>
            exists k :: 1 <= k <= |items| && key == Numeric(Decimals.Decimal(false, k, [0]))
  {
    var j := J.Arr(items);
    GrownKeys(j, 0, [], key, Grown(j));
    if i :| 0 <= i < Size(j) && KeyAt(j, i) == key {
      assert key == Numeric(Decimals.Decimal(false, i + 1, [0]));
    }
    if k :| 1 <= k <= |items| && key == Numeric(Decimals.Decimal(false, k, [0])) {
      assert KeyAt(j, k - 1) == key;
    }
  }

  lemma {:induction false} GrownArray(heap: Heap, v: Value, items: seq<J.Json>)
    requires Grown(J.Arr(items)).Some? && LooksLike(heap, v, Grown(J.Arr(items)).value)
    ensures StandsFor(heap, v, J.Arr(items))
    decreases J.Arr(items), 0
  {
    var j, t := J.Arr(items), Grown(J.Arr(items));
    ArrayKeys(items, Nil);
    var es := heap[v.ref];
    forall key
      ensures Has(es, key) <==> exists k :: 1 <= k <= |items| && key == Numeric(Decimals.Decimal(false, k, [0]))
    {
      ArrayKeys(items, key);
    }
    forall k | 1 <= k <= |items|
      ensures var key := Numeric(Decimals.Decimal(false, k, [0]));
              Has(es, key) && StandsFor(heap, At(es, key), items[k - 1])
    {
      GrownAt(j, 0, [], k - 1, t);
      assert KeyAt(j, k - 1) == Numeric(Decimals.Decimal(false, k, [0]));
      GrownStandsFor(heap, At(es, KeyAt(j, k - 1)), items[k - 1]);
    }
  }

  lemma {:induction false} GrownObject(heap: Heap, v: Value, members: seq<J.Member>)
    requires Grown(J.Obj(members)).Some? && LooksLike(heap, v, Grown(J.Obj(members)).value)
    ensures StandsFor(heap, v, J.Obj(members))
    decreases J.Obj(members), 0
  {
    var j, t := J.Obj(members), Grown(J.Obj(members));
    GrownKeys(j, 0, [], Nil, t);
    var es := heap[v.ref];
    forall key | Has(es, key)
      ensures exists i :: 0 <= i < |members| && IsCutName(key, members[i].name)
    {
      GrownKeys(j, 0, [], key, t);
      var i :| 0 <= i < Size(j) && KeyAt(j, i) == key;
      CutIsKey(members, i, key);
    }
    forall i, key | 0 <= i < |members| && IsLastWith(members, i, key)
      ensures Has(es, key) && StandsFor(heap, At(es, key), members[i].value)
    {
      forall k | i <= k < |members| {
        CutIsKey(members, k, key);
      }
      GrownAt(j, 0, [], i, t);
      GrownStandsFor(heap, At(es, key), ChildAt(j, i));
    }
  }

  /** A push gives the value the document stands for, in tables it allocated. */
  lemma PushStandsFor(m: Memory, j: J.Json)
    requires m.Valid() && NoNull(j)
    ensures var r := PushJson(m, j);
            r.Pushed? && StandsFor(Slice(r.mem.heap, m.next, r.mem.next), r.v, j)
  {
    PushesIffNoNull(m, j);
    PushGrows(m, j);
    GrownStandsFor(Slice(PushJson(m, j).mem.heap, m.next, PushJson(m, j).mem.next), PushJson(m, j).v, j);
  }

  /** An array read from any text has exactly the keys 1 to n, with the items in their order. */
  lemma ArrayIsCounted(m: Memory, text: string, items: seq<J.Json>)
    requires m.Valid() && J.FromString(text) == Some(J.Arr(items)) && NoNull(J.Arr(items))
    ensures var r := Cast(m, AsTable, text);
            && r.Pushed? && r.v.Table? && r.v.ref in r.mem.heap
            && var es, inner := r.mem.heap[r.v.ref], Slice(r.mem.heap, m.next, r.mem.next);
               && |es| == |items|
               && (forall key :: Has(es, key) <==>
                     exists k :: 1 <= k <= |items| && key == Numeric(Decimals.Decimal(false, k, [0])))
               && forall k :: 1 <= k <= |items| ==>
                    StandsFor(inner, At(es, Numeric(Decimals.Decimal(false, k, [0]))), items[k - 1])
  {
    var j := J.Arr(items);
    PushStandsFor(m, j);
    PushGrows(m, j);
    GrownSize(items, 0, [], Grown(j));
  }

  lemma {:induction false} GrownSize(items: seq<J.Json>, i: nat, bs: seq<Branch>, t: Option<Tree>)
    requires i <= |items| && t == GrownFrom(J.Arr(items), i, bs) && t.Some?
    requires |bs| == i && forall k :: 0 <= k < i ==> bs[k].key == ItemKey(k)
    ensures t.value.Node? && |t.value.branches| == |items|
    decreases |items| - i
  {
    if i < |items| {
      assert !Has(bs, ItemKey(i));
      GrownSize(items, i + 1, SetEntry(bs, ItemKey(i), Grown(ChildAt(J.Arr(items), i)).value), t);
    }
  }

  // ----- Storing -----

  /**
   The document a value is stored as: an empty table is null, a table keyed by
   strings an object under the cut names, one keyed by numbers an array.
   */
  ghost predicate StoredAs(t: Tree, j: J.Json)
    decreases t
  {
    match t
    case Leaf(Text(s)) => j.Str? && IsCut(j.s, s)
    case Leaf(Numeric(n)) => j == J.Num(n)
    case Leaf(Boolean(b)) => j == J.Bool(b)
    case Leaf(_) => false
    case Node(bs) =>
      if bs == [] then j == J.Null
      else if j.Obj? then
        |j.members| == |bs| &&
        forall i :: 0 <= i < |bs| ==>
          && bs[i].key.Text? && IsCut(j.members[i].name, bs[i].key.s)
          && StoredAs(bs[i].val, j.members[i].value)
      else
        j.Arr? && |j.items| == |bs| &&
        forall i :: 0 <= i < |bs| ==> bs[i].key.Numeric? && StoredAs(bs[i].val, j.items[i])
  }

  lemma {:induction false} EncodesStored(t: Tree)
    requires Encode(t).Done?
    ensures StoredAs(t, Encode(t).json)
    decreases t
  {
    match t
    case Leaf(Text(s)) => assert IsCut(CString(s), s);
    case Leaf(_) =>
    case Node(bs) =>
      EncodesIffSerializable(t);
      forall i | 0 <= i < |bs|
        ensures Encode(bs[i].val).Done? && StoredAs(bs[i].val, Encode(bs[i].val).json)
      {
        assert bs[i] in bs;
        EncodesIffSerializable(bs[i].val);
        EncodesStored(bs[i].val);
      }
      EncodeShape(bs);
      if bs != [] && AllText(bs) {
        forall i | 0 <= i < |bs|
          ensures IsCut(CString(bs[i].key.s), bs[i].key.s)
        {
        }
        assert forall i :: 0 <= i < |bs| ==> Members(bs, |bs|)[i] == Member(bs[i]);
      }
  }

  lemma {:induction false} StoredEncodes(t: Tree, j: J.Json)
    requires StoredAs(t, j)
    ensures Encode(t) == Done(j)
    decreases t
  {
    match t
    case Leaf(Text(s)) => CutIsUnique(j.s, s);
    case Leaf(_) =>
    case Node(bs) =>
      forall i | 0 <= i < |bs|
        ensures Encode(bs[i].val) == Done(if j.Obj? then j.members[i].value else j.items[i])
        ensures bs[i].key.Text? && j.Obj? ==> CString(bs[i].key.s) == j.members[i].name
      {
        StoredEncodes(bs[i].val, if j.Obj? then j.members[i].value else j.items[i]);
        if j.Obj? {
          CutIsUnique(j.members[i].name, bs[i].key.s);
        }
      }
      EncodeShape(bs);
      if bs != [] && j.Obj? {
        assert Members(bs, |bs|) == j.members;
      } else if bs != [] {
        assert EncodedTrees.Items(bs, |bs|) == j.items;
      }
  }

  /** The serializer computes exactly this document, for each value that has one. */
  lemma EncodesIffStored(t: Tree, j: J.Json)
    ensures Encode(t) == Done(j) <==> StoredAs(t, j)
  {
    if Encode(t) == Done(j) {
      EncodesStored(t);
    }
    if StoredAs(t, j) {
      StoredEncodes(t, j);
    }
  }

  // ----- The first fault -----

  /** The branches before this one are stored, and agree in the kind of their keys. */
  predicate StoredBefore(bs: seq<Branch>, n: nat)
    requires n <= |bs|
  {
    && (forall i :: 0 <= i < n ==> Serializable(bs[i].val))
    && ((forall i :: 0 <= i < n ==> bs[i].key.Text?) || forall i :: 0 <= i < n ==> bs[i].key.Numeric?)
  }

  /**
   The first thing in traversal order that cannot be stored, and how many tables
   are around it: a value of another kind, a key of another kind, or a key that
   does not go with those before it, which is noticed after its value is stored.
   */
  ghost predicate FailsWith(t: Tree, fault: Fault, depth: nat)
    decreases depth, 1
  {
    match t
    case Leaf(v) => fault == BadValue && depth == 0 && !v.Text? && !v.Numeric? && !v.Boolean?
    case Node(bs) =>
      depth > 0 && exists n :: 0 <= n < |bs| && StoredBefore(bs, n) && FailsAt(bs, n, fault, depth)
  }

  ghost predicate FailsAt(bs: seq<Branch>, n: nat, fault: Fault, depth: nat)
    requires n < |bs| && depth > 0
    decreases depth, 0
  {
    if !bs[n].key.Text? && !bs[n].key.Numeric? then fault == BadKey && depth == 1
    else if Serializable(bs[n].val) then
      fault == MixedKeys && depth == 1 && n > 0 && bs[n].key.Text? != bs[0].key.Text?
    else FailsWith(bs[n].val, fault, depth - 1)
  }

  /** What the builder is once the branches before `n` are in it. */
  predicate BuilderFits(bs: seq<Branch>, n: nat, builder: J.Json)
    requires n <= |bs|
  {
    if n == 0 then builder.Null? else if bs[0].key.Text? then builder.Obj? else builder.Arr?
  }

  lemma {:induction false} EncodeUpTo(bs: seq<Branch>, n: nat) returns (builder: J.Json)
    requires n <= |bs| && StoredBefore(bs, n)
    ensures BuilderFits(bs, n, builder) && EncodeFrom(bs, 0, J.Null) == EncodeFrom(bs, n, builder)
  {
    if n == 0 {
      builder := J.Null;
    } else {
      var before := EncodeUpTo(bs, n - 1);
      EncodesIffSerializable(bs[n - 1].val);
      assert EncodeBranch(bs[n - 1]).Done?;
      builder := Add(before, bs[n - 1].key, EncodeBranch(bs[n - 1]).json).value;
    }
  }

  /** One turn: a fault of the branch, or the builder with the branch in it. */
  lemma EncodeTurn(bs: seq<Branch>, i: nat, builder: J.Json)
    requires i < |bs| && StoredBefore(bs, i) && BuilderFits(bs, i, builder)
    ensures var key, value, r := bs[i].key, Encode(bs[i].val), EncodeFrom(bs, i, builder);
            if !key.Text? && !key.Numeric? then r == Failed(BadKey, 1)
            else if value.Failed? then r == Failed(value.fault, value.depth + 1)
            else if i > 0 && key.Text? != bs[0].key.Text? then r == Failed(MixedKeys, 1)
            else
              var next := Add(builder, key, value.json);
              next.Some? && BuilderFits(bs, i + 1, next.value) && r == EncodeFrom(bs, i + 1, next.value)
  {
    assert EncodeBranch(bs[i]) == Encode(bs[i].val);
  }

  lemma {:induction false} FailsWhere(t: Tree, fault: Fault, depth: nat)
    requires Encode(t) == Failed(fault, depth)
    ensures FailsWith(t, fault, depth)
    decreases t, 1, 0
  {
    if t.Node? {
      var n := FailsFrom(t, 0, J.Null, fault, depth);
    }
  }

  lemma {:induction false} FailsFrom(t: Tree, i: nat, builder: J.Json, fault: Fault, depth: nat) returns (n: nat)
    requires t.Node? && i <= |t.branches| && StoredBefore(t.branches, i) && BuilderFits(t.branches, i, builder)
    requires EncodeFrom(t.branches, i, builder) == Failed(fault, depth)
    ensures n < |t.branches| && depth > 0 && StoredBefore(t.branches, n) && FailsAt(t.branches, n, fault, depth)
    decreases t, 0, |t.branches| - i
  {
    var bs := t.branches;
    var value := Encode(bs[i].val);
    n := i;
    EncodeTurn(bs, i, builder);
    EncodesIffSerializable(bs[i].val);
    if IsKey(bs[i].key) && value.Failed? {
      FailsWhere(bs[i].val, value.fault, value.depth);
    } else if IsKey(bs[i].key) && (i == 0 || bs[i].key.Text? == bs[0].key.Text?) {
      n := FailsFrom(t, i + 1, Add(builder, bs[i].key, value.json).value, fault, depth);
    }
  }

  lemma {:induction false} FailsThere(t: Tree, fault: Fault, depth: nat)
    requires FailsWith(t, fault, depth)
    ensures Encode(t) == Failed(fault, depth)
    decreases t
  {
    if t.Node? {
      var bs := t.branches;
      var n :| 0 <= n < |bs| && StoredBefore(bs, n) && FailsAt(bs, n, fault, depth);
      var builder := EncodeUpTo(bs, n);
      EncodeTurn(bs, n, builder);
      EncodesIffSerializable(bs[n].val);
      if IsKey(bs[n].key) && !Serializable(bs[n].val) {
        FailsThere(bs[n].val, fault, depth - 1);
      }
    }
  }

  /** The serializer fails exactly with the first fault. */
  lemma FailsIff(t: Tree, fault: Fault, depth: nat)
    ensures Encode(t) == Failed(fault, depth) <==> FailsWith(t, fault, depth)
  {
    if Encode(t) == Failed(fault, depth) {
      FailsWhere(t, fault, depth);
    }
    if FailsWith(t, fault, depth) {
      FailsThere(t, fault, depth);
    }
  }

  /** What is stored: a string as it is, any other document as a JSON text of it. */
  lemma StoredTextIs(j: J.Json)
    ensures j.Str? ==> StoredText(j) == j.s
    ensures !j.Str? ==> IsPadded(StoredText(j), j) && '\0' !in StoredText(j)
  {
    PrintIsText(j);
    J.PrintHasNoNul(j);
  }

  // ----- The casts of a text -----

  /** The part of a document reached by one position after another. */
  function NodeAt(j: J.Json, path: seq<nat>): Option<J.Json>
    decreases |path|
  {
    if path == [] then Some(j)
    else
      match j
      case Arr(items) => if path[0] < |items| then NodeAt(items[path[0]], path[1..]) else None
      case Obj(members) => if path[0] < |members| then NodeAt(members[path[0]].value, path[1..]) else None
      case _ => None
  }

  ghost predicate NullFree(j: J.Json) { forall path :: NodeAt(j, path) != Some(J.Null) }

  lemma {:induction false} NoNullAnywhere(j: J.Json, path: seq<nat>)
    requires NoNull(j)
    ensures NodeAt(j, path) != Some(J.Null)
    decreases |path|
  {
    if path != [] {
      match j
      case Arr(items) =>
        if path[0] < |items| {
          NoNullAnywhere(items[path[0]], path[1..]);
        }
      case Obj(members) =>
        if path[0] < |members| {
          assert members[path[0]] in members;
          NoNullAnywhere(members[path[0]].value, path[1..]);
        }
      case _ =>
    }
  }

  lemma {:induction false} NullSomewhere(j: J.Json) returns (path: seq<nat>)
    requires !NoNull(j)
    ensures NodeAt(j, path) == Some(J.Null)
    decreases j
  {
    match j
    case Null => path := [];
    case Arr(items) =>
      var i :| 0 <= i < |items| && !NoNull(items[i]);
      var rest := NullSomewhere(items[i]);
      path := [i] + rest;
      assert path[1..] == rest;
    case Obj(members) =>
      var i :| 0 <= i < |members| && !NoNull(members[i].value);
      assert members[i] in members;
      var rest := NullSomewhere(members[i].value);
      path := [i] + rest;
      assert path[1..] == rest;
    case _ =>
  }

  lemma NoNullIff(j: J.Json)
    ensures NoNull(j) <==> NullFree(j)
  {
    if NoNull(j) {
      forall path
        ensures NodeAt(j, path) != Some(J.Null)
      {
        NoNullAnywhere(j, path);
      }
    } else {
      var path := NullSomewhere(j);
    }
  }

  /** Any text is cast to a string up to its first NUL, and to a boolean by comparing it with one word. */
  lemma ScalarCasts(m: Memory, text: string)
    ensures var r := Cast(m, AsString, text);
            r.Pushed? && r.mem == m && r.v.Text? && IsCut(r.v.s, text)
    ensures Cast(m, AsBoolean, text) == Pushed(m, Boolean(true)) <==> text == "true"
    ensures Cast(m, AsBoolean, text) == Pushed(m, Boolean(false)) <==> text != "true"
  {
    assert IsCut(CString(text), text);
  }

  /** A text is cast to the number it spells, and refused when it spells none. */
  lemma NumberCast(m: Memory, text: string)
    ensures forall n: Decimals.Number :: Cast(m, AsNumber, text) == Pushed(m, Numeric(n)) <==> IsCastText(text, n)
    ensures (forall n: Decimals.Number :: !IsCastText(text, n)) ==>
              Cast(m, AsNumber, text) == Refused(m, [], BadNumber)
  {
    forall n: Decimals.Number
      ensures Decimals.Parse(text) == Some(n) <==> IsCastText(text, n)
    {
      NumberTexts.ParsesIff(text, n);
    }
  }

  predicate DistinctNames(j: Option<J.Json>) {
    j.Some? && j.value.Obj? ==>
      forall i, k :: 0 <= i < k < |j.value.members| ==> j.value.members[i].name != j.value.members[k].name
  }

  ghost predicate NoNameTwice(j: J.Json) { forall path :: DistinctNames(NodeAt(j, path)) }

  lemma {:induction false} UniqueAnywhere(j: J.Json, path: seq<nat>)
    requires J.UniqueNames(j)
    ensures DistinctNames(NodeAt(j, path))
    decreases |path|
  {
    if path != [] {
      match j
      case Arr(items) =>
        if path[0] < |items| {
          UniqueAnywhere(items[path[0]], path[1..]);
        }
      case Obj(members) =>
        if path[0] < |members| {
          assert members[path[0]] in members;
          UniqueAnywhere(members[path[0]].value, path[1..]);
        }
      case _ =>
    }
  }

  lemma {:induction false} NameTwiceSomewhere(j: J.Json) returns (path: seq<nat>)
    requires !J.UniqueNames(j)
    ensures !DistinctNames(NodeAt(j, path))
    decreases j
  {
    match j
    case Arr(items) =>
      var i :| 0 <= i < |items| && !J.UniqueNames(items[i]);
      var rest := NameTwiceSomewhere(items[i]);
      path := [i] + rest;
      assert path[1..] == rest;
    case Obj(members) =>
      if DistinctNames(Some(j)) {
        var i :| 0 <= i < |members| && !J.UniqueNames(members[i].value);
        assert members[i] in members;
        var rest := NameTwiceSomewhere(members[i].value);
        path := [i] + rest;
        assert path[1..] == rest;
      } else {
        path := [];
      }
    case _ =>
  }

  lemma UniqueNamesIff(j: J.Json)
    ensures J.UniqueNames(j) <==> NoNameTwice(j)
  {
    if J.UniqueNames(j) {
      forall path
        ensures DistinctNames(NodeAt(j, path))
      {
        UniqueAnywhere(j, path);
      }
    } else {
      var path := NameTwiceSomewhere(j);
    }
  }

  /** The document a text is, if it is one at all: the grammar derives it, and no object in it names a member twice. */
  ghost predicate IsDocument(text: string, j: J.Json) { IsPadded(text, j) && NoNameTwice(j) }

  /** A text is parsed exactly when it is a document. */
  lemma DocumentIff(text: string, j: J.Json)
    ensures J.FromString(text) == Some(j) <==> IsDocument(text, j)
  {
    JsonGrammar.ParsesIff(text, j);
    UniqueNamesIff(j);
  }

  /**
   A scalar is refused after the new table was taken away again; a table with null
   in it leaves a table and a key; every other table gives what it stands for, in
   fresh tables.
   */
  ghost predicate CastsTable(m: Memory, j: J.Json, r: Pushed) {
    && Extends(m, r.mem, {})
    && (!j.Arr? && !j.Obj? ==> r.Refused? && r.error == NotATable && r.left == [])
    && ((j.Arr? || j.Obj?) && NullFree(j) ==>
          r.Pushed? && StandsFor(Slice(r.mem.heap, m.next, r.mem.next), r.v, j))
    && ((j.Arr? || j.Obj?) && !NullFree(j) ==> r.Refused? && r.error == UnexpectedType && |r.left| == 2)
  }

  lemma ParsedCast(m: Memory, text: string, j: J.Json)
    requires m.Valid() && J.FromString(text) == Some(j)
    ensures CastsTable(m, j, Cast(m, AsTable, text))
  {
    NewTableExtends(m);
    PushExtends(m, j);
    PushesIffNoNull(m, j);
    NoNullIff(j);
    if NoNull(j) {
      PushStandsFor(m, j);
    }
  }

  /** A text that is a document is cast to the table it stands for. */
  lemma TableCast(m: Memory, text: string, j: J.Json)
    requires m.Valid() && IsDocument(text, j)
    ensures CastsTable(m, j, Cast(m, AsTable, text))
  {
    DocumentIff(text, j);
    ParsedCast(m, text, j);
  }

  /** A text that is none is refused before anything is pushed. */
  lemma NoTableCast(m: Memory, text: string)
    ensures Cast(m, AsTable, text) == Refused(m, [], BadJson) || exists j :: IsDocument(text, j)
  {
    if J.FromString(text).Some? {
      DocumentIff(text, J.FromString(text).value);
    }
  }
}
