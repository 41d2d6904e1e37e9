/** The tag classifier of the FORA semantic-test driver: which members of a
    loaded FORA module are test cases, judged from the metadata attached to
    each member. */
module Tags {
  import opened Util

  /** The part of a FORA value that the classifier can observe: a symbol
      (`` `test ``), a tuple whose fields may carry names, or any other
      atomic value (a string, a number, ...), kept as its printed form. */
  datatype Value =
    | Symbol(name: string)
    | Tuple(fields: seq<Field>)
    | Atom(repr: string)

  /** One element of a FORA tuple; `name` is `None` for a positional field. */
  datatype Field = Field(name: Option<string>, value: Value)

  /** A member of a module as the member inspector reports it: its name and
      its metadata, which may be absent. */
  datatype Member = Member(name: string, metadata: Option<Value>)

  /** The reserved symbol `` `test `` that marks a test case. */
  const TestSymbol: Value := Symbol("test")

  /** Reference meaning of a tag: the symbol itself, or a tuple holding it
      as any one of its elements. */
  ghost predicate IsTag(v: Value) {
    v == TestSymbol || (v.Tuple? && exists i :: 0 <= i < |v.fields| && v.fields[i].value == TestSymbol)
  }

  /** The value of the first field of `fields` named `name`, scanning in order. */
  function FirstNamed(fields: seq<Field>, name: string): (r: Option<Value>)
    ensures r.None? <==> forall i :: 0 <= i < |fields| ==> fields[i].name != Some(name)
    ensures r.Some? ==> exists i :: 0 <= i < |fields| && fields[i] == Field(Some(name), r.value)
                                    && forall j :: 0 <= j < i ==> fields[j].name != Some(name)
  {
    if fields == [] then None
    else if fields[0].name == Some(name) then Some(fields[0].value)
    else
      var r := FirstNamed(fields[1..], name);
      assert forall j :: 1 <= j < |fields| ==> fields[j] == fields[1..][j - 1];
      r
  }

  /** `getTupleMember(name)`: the named member of a tuple value, `None` for
      a value that is not a tuple or has no such member. */
  function TupleMember(v: Value, name: string): (r: Option<Value>)
    ensures r.None? <==> !v.Tuple? || forall i :: 0 <= i < |v.fields| ==> v.fields[i].name != Some(name)
    ensures r.Some? ==> v.Tuple? && exists i :: 0 <= i < |v.fields| && v.fields[i] == Field(Some(name), r.value)
  {
    if v.Tuple? then FirstNamed(v.fields, name) else None
  }

  /** The loop over the elements of a tuple, from index `ix` on, that returns
      true on the first element equal to `` `test ``. */
  function ScanForTag(fields: seq<Field>, ix: nat): (r: bool)
    requires ix <= |fields|
    ensures r <==> exists k :: ix <= k < |fields| && fields[k].value == TestSymbol
    decreases |fields| - ix
  {
    if ix == |fields| then false
    else if fields[ix].value == TestSymbol then true
    else ScanForTag(fields, ix + 1)
  }

  /** `isTestCase`: absent metadata, or metadata without an `outer` member,
      is not a test; otherwise the outer value must be the test tag. */
  function IsTestCase(metadata: Option<Value>): (r: bool)
    ensures r <==> metadata.Some? && TupleMember(metadata.value, "outer").Some?
                   && IsTag(TupleMember(metadata.value, "outer").value)
  {
    match metadata
    case None => false
    case Some(meta) =>
      match TupleMember(meta, "outer")
      case None => false
      case Some(outer) =>
        if outer == TestSymbol then true
        else if outer.Tuple? then ScanForTag(outer.fields, 0)
        else false
  }

  /** `extractModuleTestNames`: the names of the test-case members, in the
      order the member inspector lists them. */
  function ExtractModuleTestNames(members: seq<Member>): (r: seq<string>)
    ensures |r| <= |members|
    ensures forall n :: n in r <==>
              exists i :: 0 <= i < |members| && members[i].name == n && IsTestCase(members[i].metadata)
  {
    if members == [] then []
    else
      var rest := ExtractModuleTestNames(members[1..]);
      assert forall i :: 1 <= i < |members| ==> members[i] == members[1..][i - 1];
      if IsTestCase(members[0].metadata) then [members[0].name] + rest else rest
  }

  /** Extraction keeps the inspector's order: the tests of a concatenation
      are the tests of each part, one after the other. */
  lemma {:induction false} ExtractKeepsOrder(a: seq<Member>, b: seq<Member>)
    ensures ExtractModuleTestNames(a + b) == ExtractModuleTestNames(a) + ExtractModuleTestNames(b)
  {
    if a == [] {
      assert a + b == b;
    } else {
      assert (a + b)[1..] == a[1..] + b;
      ExtractKeepsOrder(a[1..], b);
    }
  }

  ghost predicate DistinctNames(members: seq<Member>) {
    forall i, j :: 0 <= i < j < |members| ==> members[i].name != members[j].name
  }

  /** Member names are the keys of a dictionary, so they are distinct; the
      extracted test names are then distinct too. */
  lemma {:induction false} ExtractedNamesDistinct(members: seq<Member>)
    requires DistinctNames(members)
    ensures forall i, j :: 0 <= i < j < |ExtractModuleTestNames(members)| ==>
              ExtractModuleTestNames(members)[i] != ExtractModuleTestNames(members)[j]
  {
    if members != [] {
      var tail := members[1..];
      assert DistinctNames(tail) by {
        forall i, j | 0 <= i < j < |tail| ensures tail[i].name != tail[j].name {
          assert tail[i] == members[i + 1] && tail[j] == members[j + 1];
        }
      }
      ExtractedNamesDistinct(tail);
      var rest := ExtractModuleTestNames(tail);
      if IsTestCase(members[0].metadata) {
        assert members[0].name !in rest by {
          forall i | 0 <= i < |tail| ensures tail[i].name != members[0].name {
            assert tail[i] == members[i + 1];
          }
        }
        var r := ExtractModuleTestNames(members);
        assert r == [members[0].name] + rest;
        forall i, j | 0 <= i < j < |r| ensures r[i] != r[j] {
          if i == 0 {
            assert r[j] == rest[j - 1];
          } else {
            assert r[i] == rest[i - 1] && r[j] == rest[j - 1];
          }
        }
      }
    }
  }
}
