/** Following a pointer through a tree, and creating the value it names. Nodes are identified by child positions. */
module PointerTree {
  import opened Bytes
  import opened Document
  import opened Pointer
  import opened Options

  /** The first member of that name, or the number of members. */
  function FindMember(members: seq<Member>, name: Text): (i: nat)
    ensures i <= |members| && (i < |members| ==> members[i].name == name)
    ensures forall j | 0 <= j < i :: members[j].name != name
  {
    if |members| == 0 then 0
    else if members[0].name == name then 0
    else 1 + FindMember(members[1..], name)
  }

  /** The number of children of a container. */
  function Degree(v: Value): nat {
    match v
    case Array(items) => |items|
    case Object(members) => |members|
    case _ => 0
  }

  function Child(v: Value, i: nat): (c: Value)
    requires i < Degree(v)
    ensures c < v
  {
    match v
    case Array(items) => items[i]
    case Object(members) => assert members[i] < v; members[i].value
  }

  function WithChild(v: Value, i: nat, c: Value): (r: Value)
    requires i < Degree(v)
    ensures Degree(r) == Degree(v) && Child(r, i) == c
    ensures forall j | 0 <= j < Degree(v) && j != i :: Child(r, j) == Child(v, j)
    ensures r.Array? == v.Array? && r.Object? == v.Object?
  {
    match v
    case Array(items) => Array(items[i := c])
    case Object(members) => Object(members[i := Member(members[i].name, c)])
  }

  /** The child a token selects, if there is one. */
  function Select(v: Value, t: Token): Option<nat> {
    match v
    case Object(members) =>
      var i := FindMember(members, t.name);
      if i < |members| then Some(i) else None
    case Array(items) =>
      if t.index == INVALID_INDEX || t.index >= |items| then None else Some(t.index)
    case _ => None
  }

  /** Get: the path to the value, or none if some token cannot be resolved. */
  function Get(v: Value, tokens: seq<Token>): Option<seq<nat>>
    decreases |tokens|
  {
    if |tokens| == 0 then Some([])
    else
      var i := Select(v, tokens[0]);
      if i.None? || i.value >= Degree(v) then None
      else
        var rest := Get(Child(v, i.value), tokens[1..]);
        if rest.None? then None else Some([i.value] + rest.value)
  }

  /** The node at a path. */
  function NodeAt(v: Value, path: seq<nat>): Option<Value>
    decreases |path|
  {
    if |path| == 0 then Some(v)
    else if path[0] >= Degree(v) then None
    else NodeAt(Child(v, path[0]), path[1..])
  }

  // ----------------------------------------------------------------- create

  predicate IsDash(t: Token) {
    t.name == [MINUS]
  }

  /** A token that names a member must find an object, any other token an array or an object. */
  function Retyped(v: Value, t: Token): (r: Value)
    ensures r.Array? || r.Object?
  {
    if t.index == INVALID_INDEX then (if v.Object? then v else Object([]))
    else if v.Array? || v.Object? then v else Array([])
  }

  /** Nulls appended until the array has n elements. */
  function Padded(items: seq<Value>, n: nat): (r: seq<Value>)
    ensures |r| == (if |items| >= n then |items| else n) && r[..|items|] == items
    decreases n - |items|
  {
    if |items| >= n then items
    else
      var r := Padded(items + [Null], n);
      assert r[..|items|] == r[..|items| + 1][..|items|];
      r
  }

  /** The value prepared for one step of Create, and the child the step goes to. */
  function Prepare(v: Value, t: Token): (r: (Value, nat))
    ensures r.1 < Degree(r.0)
  {
    if v.Array? && IsDash(t) then (Array(v.items + [Null]), |v.items|)
    else
      var c := Retyped(v, t);
      if c.Array? then (Array(Padded(c.items, t.index + 1)), t.index)
      else
        var i := FindMember(c.members, t.name);
        if i < |c.members| then (c, i) else (Object(c.members + [Member(t.name, Null)]), i)
  }

  /** Create: the tree it leaves. */
  function Create(v: Value, tokens: seq<Token>): Value
    decreases |tokens|
  {
    if |tokens| == 0 then v
    else
      var (c, i) := Prepare(v, tokens[0]);
      WithChild(c, i, Create(Child(c, i), tokens[1..]))
  }

  /** The node it returns. */
  function Created(v: Value, tokens: seq<Token>): seq<nat>
    decreases |tokens|
  {
    if |tokens| == 0 then []
    else
      var (c, i) := Prepare(v, tokens[0]);
      [i] + Created(Child(c, i), tokens[1..])
  }

  /** What it reports about the node: nothing had to be added on the way. */
  predicate Existed(v: Value, tokens: seq<Token>)
    decreases |tokens|
  {
    |tokens| == 0
    || var (c, i) := Prepare(v, tokens[0]);
       c == v && i < Degree(v) && Existed(Child(v, i), tokens[1..])
  }

  /** A dash is met at an array. */
  predicate DashMeetsArray(v: Value, tokens: seq<Token>)
    decreases |tokens|
  {
    |tokens| > 0 &&
    ((v.Array? && IsDash(tokens[0]))
     || var (c, i) := Prepare(v, tokens[0]);
        DashMeetsArray(Child(c, i), tokens[1..]))
  }

  /** On the way an array with elements has to become an object, because the token cannot be an index. */
  predicate LosesElements(v: Value, tokens: seq<Token>)
    decreases |tokens|
  {
    |tokens| > 0 &&
    ((v.Array? && |v.items| > 0 && !IsDash(tokens[0]) && tokens[0].index == INVALID_INDEX)
     || var (c, i) := Prepare(v, tokens[0]);
        LosesElements(Child(c, i), tokens[1..]))
  }

  /** The paths part at some step. */
  predicate Diverge(p: seq<nat>, q: seq<nat>) {
    |p| > 0 && |q| > 0 && (p[0] != q[0] || Diverge(p[1..], q[1..]))
  }

  lemma DashIsNoIndex(t: Token)
    requires Canonical(t) && IsDash(t)
    ensures t.index == INVALID_INDEX
  {
    assert !IsDigit(t.name[0]);
  }

  /** The step prepared by Create is the one Get takes, unless it is a dash at an array. */
  lemma SelectsPrepared(v: Value, t: Token, d: Value)
    requires Canonical(t)
    ensures var (c, i) := Prepare(v, t);
            Select(WithChild(c, i, d), t) == if v.Array? && IsDash(t) then None else Some(i)
  {
    var (c, i) := Prepare(v, t);
    if v.Array? && IsDash(t) {
      DashIsNoIndex(t);
    } else if c.Object? {
      SameNames(c.members, c.members[i := Member(c.members[i].name, d)], t.name);
    }
  }

  lemma {:induction false} SameNames(a: seq<Member>, b: seq<Member>, name: Text)
    requires |a| == |b| && forall i | 0 <= i < |a| :: a[i].name == b[i].name
    ensures FindMember(a, name) == FindMember(b, name)
  {
    if |a| > 0 {
      SameNames(a[1..], b[1..], name);
    }
  }

  /**
   * After Create, Get with the same pointer reaches exactly the node that was created or found, if and only if
   * no dash met an array; the node holds what Create left there.
   */
  lemma {:induction false} GetAfterCreate(v: Value, tokens: seq<Token>)
    requires forall t | t in tokens :: Canonical(t)
    ensures Get(Create(v, tokens), tokens) == if DashMeetsArray(v, tokens) then None else Some(Created(v, tokens))
    ensures NodeAt(Create(v, tokens), Created(v, tokens)).Some?
    decreases |tokens|
  {
    if |tokens| > 0 {
      var (c, i) := Prepare(v, tokens[0]);
      GetAfterCreate(Child(c, i), tokens[1..]);
      SelectsPrepared(v, tokens[0], Create(Child(c, i), tokens[1..]));
    }
  }

  // ------------------------------------------------------- what stays as it was

  lemma {:induction false} FindAppended(a: seq<Member>, m: Member, name: Text)
    requires FindMember(a, name) < |a|
    ensures FindMember(a + [m], name) == FindMember(a, name)
  {
    assert (a + [m])[0] == a[0];
    if a[0].name != name {
      assert (a + [m])[1..] == a[1..] + [m];
      FindAppended(a[1..], m, name);
    }
  }

  /** Preparing keeps the children there were, unless an array with elements becomes an object. */
  lemma PrepareKeepsChildren(v: Value, t: Token, j: nat)
    requires j < Degree(v) && !(v.Array? && !IsDash(t) && t.index == INVALID_INDEX)
    ensures var c := Prepare(v, t).0;
            j < Degree(c) && Child(c, j) == Child(v, j) && c.Array? == v.Array? && c.Object? == v.Object?
  {
    if v.Array? && !IsDash(t) {
      assert Padded(v.items, t.index + 1)[..|v.items|][j] == v.items[j];
    }
  }

  /** A token that selected a child still selects it after a step to some child. */
  lemma StillSelects(v: Value, t: Token, d: Value, other: Token)
    requires Select(v, other).Some? && !(v.Array? && !IsDash(t) && t.index == INVALID_INDEX)
    ensures var (c, i) := Prepare(v, t);
            Select(v, other).value < Degree(v) && Select(WithChild(c, i, d), other) == Select(v, other)
  {
    var (c, i) := Prepare(v, t);
    if v.Object? {
      var m := v.members;
      if i == |m| {
        FindAppended(m, Member(t.name, Null), other.name);
      }
      SameNames(c.members, c.members[i := Member(c.members[i].name, d)], other.name);
    }
  }

  /**
   * Unless an array with elements on the way becomes an object, every value that a pointer reached is still
   * reached by it, at the same place and unchanged, if its path parts from that of the created node.
   */
  lemma {:induction false} DivergingUnchanged(v: Value, tokens: seq<Token>, other: seq<Token>)
    requires !LosesElements(v, tokens)
    requires Get(v, other).Some? && Diverge(Get(v, other).value, Created(v, tokens))
    ensures Get(Create(v, tokens), other) == Get(v, other)
    ensures NodeAt(Create(v, tokens), Get(v, other).value) == NodeAt(v, Get(v, other).value)
    decreases |tokens|
  {
    var (c, i) := Prepare(v, tokens[0]);
    var j := Select(v, other[0]).value;
    var d := Create(Child(c, i), tokens[1..]);
    var path := Get(v, other).value;
    assert path[1..] == Get(Child(v, j), other[1..]).value;
    StillSelects(v, tokens[0], d, other[0]);
    PrepareKeepsChildren(v, tokens[0], j);
    if i == j {
      assert Created(v, tokens)[1..] == Created(Child(c, i), tokens[1..]);
      DivergingUnchanged(Child(v, j), tokens[1..], other[1..]);
    }
  }

  /** A null has nothing to lose, however it is extended. */
  lemma {:induction false} NullLosesNothing(tokens: seq<Token>)
    ensures !LosesElements(Null, tokens)
    decreases |tokens|
  {
    if |tokens| > 0 {
      var (c, i) := Prepare(Null, tokens[0]);
      if tokens[0].index != INVALID_INDEX {
        PaddedWithNulls([], i + 1, i);
      }
      assert Child(c, i) == Null;
      NullLosesNothing(tokens[1..]);
    }
  }

  lemma {:induction false} PaddedWithNulls(items: seq<Value>, n: nat, i: nat)
    requires |items| <= i < n
    ensures Padded(items, n)[i] == Null
    decreases n - |items|
  {
    if i == |items| {
      var r := Padded(items + [Null], n);
      assert r[..|items| + 1][|items|] == Null;
    } else {
      PaddedWithNulls(items + [Null], n, i);
    }
  }

  const FIRST: Token := Token([ZERO], 0)

  lemma FirstIsCanonical()
    ensures Canonical(FIRST)
  {
    assert Accumulate([ZERO], 1, 0) == 0;
  }

  lemma LostFirst(v: Value, tokens: seq<Token>)
    requires |tokens| > 0 && Canonical(tokens[0])
    requires v.Array? && |v.items| > 0 && !IsDash(tokens[0]) && tokens[0].index == INVALID_INDEX
    ensures tokens[0].name != [ZERO] && Get(v, [FIRST]).Some? && Get(Create(v, tokens), [FIRST]).None?
  {
    FirstIsCanonical();
    hide IndexOf;
    var name := tokens[0].name;
    assert [] + [Member(name, Null)] == [Member(name, Null)];
    assert Prepare(v, tokens[0]) == (Object([Member(name, Null)]), 0);
    var after := Create(v, tokens);
    assert after.Object? && |after.members| == 1 && after.members[0].name == name;
    assert FindMember(after.members, [ZERO]) == 1;
    assert Get(Child(v, 0), [FIRST][1..]) == Some([]);
  }

  lemma GetStep(v: Value, t: Token, rest: seq<Token>)
    ensures var i := Select(v, t);
            Get(v, [t] + rest) ==
            if i.None? || i.value >= Degree(v) || Get(Child(v, i.value), rest).None? then None
            else Some([i.value] + Get(Child(v, i.value), rest).value)
  {
    assert ([t] + rest)[1..] == rest;
  }

  /** Otherwise something is lost: the first element of that array can no longer be reached. */
  lemma {:induction false} LostElement(v: Value, tokens: seq<Token>) returns (k: nat)
    requires LosesElements(v, tokens) && forall t | t in tokens :: Canonical(t)
    ensures k < |tokens| && tokens[k].name != [ZERO]
    ensures Get(v, tokens[..k] + [FIRST]).Some? && Get(Create(v, tokens), tokens[..k] + [FIRST]).None?
    decreases |tokens|
  {
    hide IndexOf, Get, Select, Prepare;
    if v.Array? && |v.items| > 0 && !IsDash(tokens[0]) && tokens[0].index == INVALID_INDEX {
      k := 0;
      assert tokens[..0] + [FIRST] == [FIRST];
      LostFirst(v, tokens);
    } else {
      var (c, i) := Prepare(v, tokens[0]);
      var d := Create(Child(c, i), tokens[1..]);
      ChildExisted(v, tokens);
      k := LostElement(Child(c, i), tokens[1..]);
      SelectsPrepared(v, tokens[0], d);
      var other := tokens[1..][..k] + [FIRST];
      k := k + 1;
      assert tokens[..k] + [FIRST] == [tokens[0]] + other;
      GetStep(v, tokens[0], other);
      GetStep(Create(v, tokens), tokens[0], other);
    }
  }

  /** Elements can be lost only below a child that was there before. */
  lemma ChildExisted(v: Value, tokens: seq<Token>)
    requires |tokens| > 0 && Canonical(tokens[0])
    requires var (c, i) := Prepare(v, tokens[0]); LosesElements(Child(c, i), tokens[1..])
    requires !(v.Array? && |v.items| > 0 && !IsDash(tokens[0]) && tokens[0].index == INVALID_INDEX)
    ensures var (c, i) := Prepare(v, tokens[0]);
            i < Degree(v) && Select(v, tokens[0]) == Some(i) && Child(c, i) == Child(v, i) && !(v.Array? && IsDash(tokens[0]))
  {
    var (c, i) := Prepare(v, tokens[0]);
    NullLosesNothing(tokens[1..]);
    assert Child(c, i) != Null;
    if c.Array? && !(v.Array? && IsDash(tokens[0])) {
      var items := if v.Array? then v.items else [];
      if i >= |items| {
        PaddedWithNulls(items, i + 1, i);
      } else {
        assert Padded(items, i + 1) == items;
      }
    }
  }

  /** Create reports that the node existed exactly if Get finds one; then it is that node and nothing changes. */
  lemma {:induction false} CreateExisting(v: Value, tokens: seq<Token>)
    requires forall t | t in tokens :: Canonical(t)
    ensures Existed(v, tokens) <==> Get(v, tokens).Some?
    ensures Existed(v, tokens) ==> Create(v, tokens) == v && Get(v, tokens) == Some(Created(v, tokens))
    decreases |tokens|
  {
    if |tokens| > 0 {
      PreparedIsSelected(v, tokens[0]);
      var (c, i) := Prepare(v, tokens[0]);
      if i < Degree(v) {
        CreateExisting(Child(v, i), tokens[1..]);
        SameChild(v, i);
      }
    }
  }

  lemma PreparedIsSelected(v: Value, t: Token)
    requires Canonical(t)
    ensures var (c, i) := Prepare(v, t); c == v <==> Select(v, t) == Some(i)
    ensures Select(v, t).Some? ==> Select(v, t).value < Degree(v) && Prepare(v, t) == (v, Select(v, t).value)
  {
    if v.Array? {
      if IsDash(t) {
        DashIsNoIndex(t);
      } else if t.index < |v.items| {
        assert Padded(v.items, t.index + 1) == v.items;
      }
    }
  }

  lemma SameChild(v: Value, i: nat)
    requires i < Degree(v)
    ensures WithChild(v, i, Child(v, i)) == v
  {
  }

  // ------------------------------------------------ the shape of what is made

  /** An element of an array, or the null it is filled up with. */
  function ElementOr(items: seq<Value>, j: nat): Value {
    if j < |items| then items[j] else Null
  }

  /** The array is as long as it was or as the index needs, and as it was but for the element at the index. */
  predicate ArrayWith(items: seq<Value>, r: Value, index: nat, child: Value) {
    && r.Array? && |r.items| == (if index < |items| then |items| else index + 1)
    && r.items[index] == child && forall j | 0 <= j < |r.items| && j != index :: r.items[j] == ElementOr(items, j)
  }

  /** No member before the i-th has that name. */
  predicate FirstOfName(members: seq<Member>, i: nat, name: Text)
    requires i <= |members|
  {
    forall j | 0 <= j < i :: members[j].name != name
  }

  /** The object is as it was but for the first member of that name, which comes last if there was none. */
  ghost predicate ObjectWith(members: seq<Member>, r: Value, name: Text, before: Value, child: Value) {
    && r.Object?
    && ((before == Null && FirstOfName(members, |members|, name) && r.members == members + [Member(name, child)])
        || exists i | 0 <= i < |members| ::
             && members[i] == Member(name, before) && FirstOfName(members, i, name)
             && r.members == members[i := Member(name, child)])
  }

  /**
   * One step of Create: v becomes r, in which the token names a child; before is what was there, or null.
   * A dash at an array adds an element. An index makes an array of what is no container, and fills an array up with
   * nulls. An object keeps its members and gets one of the name if it has none. Any other token makes an object.
   */
  ghost predicate MadeFor(v: Value, t: Token, r: Value, before: Value, child: Value) {
    if v.Array? && t.name == [MINUS] then before == Null && r == Array(v.items + [child])
    else if v.Object? then ObjectWith(v.members, r, t.name, before, child)
    else if t.index == INVALID_INDEX then before == Null && r == Object([Member(t.name, child)])
    else
      var items := if v.Array? then v.items else [];
      before == ElementOr(items, t.index) && ArrayWith(items, r, t.index, child)
  }

  lemma PaddedElements(items: seq<Value>, n: nat, j: nat)
    requires j < |Padded(items, n)|
    ensures Padded(items, n)[j] == ElementOr(items, j)
  {
    if j < |items| {
      assert Padded(items, n)[..|items|][j] == items[j];
    } else {
      PaddedWithNulls(items, n, j);
    }
  }

  lemma MakesArray(items: seq<Value>, index: nat, child: Value)
    ensures ArrayWith(items, Array(Padded(items, index + 1)[index := child]), index, child)
  {
    var padded := Padded(items, index + 1);
    forall j | 0 <= j < |padded| ensures padded[j] == ElementOr(items, j) {
      PaddedElements(items, index + 1, j);
    }
  }

  lemma MakesMember(members: seq<Member>, t: Token, child: Value) returns (before: Value)
    ensures var i := FindMember(members, t.name);
            var c := if i < |members| then Object(members) else Object(members + [Member(t.name, Null)]);
            i < Degree(c) && Child(c, i) == before && ObjectWith(members, WithChild(c, i, child), t.name, before, child)
  {
    var i := FindMember(members, t.name);
    if i < |members| {
      before := members[i].value;
      assert members[i] == Member(t.name, before);
    } else {
      before := Null;
      assert (members + [Member(t.name, Null)])[i := Member(t.name, child)] == members + [Member(t.name, child)];
    }
  }

  /** Every step of Create makes what is said, around what the rest of the pointer creates in the child. */
  lemma CreateShape(v: Value, tokens: seq<Token>) returns (before: Value)
    requires |tokens| > 0
    ensures MadeFor(v, tokens[0], Create(v, tokens), before, Create(before, tokens[1..]))
    ensures Create(v, []) == v
  {
    hide ArrayWith, ObjectWith;
    var t := tokens[0];
    var (c, i) := Prepare(v, t);
    before := Child(c, i);
    var child := Create(before, tokens[1..]);
    if v.Array? && IsDash(t) {
      assert (v.items + [Null])[|v.items| := child] == v.items + [child];
    } else if v.Object? {
      var m := MakesMember(v.members, t, child);
    } else if t.index == INVALID_INDEX {
      assert [] + [Member(t.name, Null)] == [Member(t.name, Null)];
      assert [Member(t.name, Null)][0 := Member(t.name, child)] == [Member(t.name, child)];
    } else {
      var items := if v.Array? then v.items else [];
      PaddedElements(items, t.index + 1, t.index);
      MakesArray(items, t.index, child);
    }
  }

  /** The pointer /0 makes an array of a null. */
  lemma IndexMakesArray()
    ensures Create(Null, [FIRST]) == Array([Null])
  {
    var before := CreateShape(Null, [FIRST]);
    var r := Create(Null, [FIRST]);
    assert [FIRST][1..] == [];
    assert r.items == [Null];
  }
}
