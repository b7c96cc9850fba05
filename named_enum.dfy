/** An enumeration that can be iterated over and whose items carry names
    (src/common/namedenum.hpp).

    The C++ template takes a traits class with the enumeration, its default
    item, a description (`StaticName`) and one name per item.  Here the traits
    are a value, and the enumeration item is its underlying integer `e`; the
    items are 0 .. N-1 and `END` is N. */
module NamedEnum {
  import opened Wrappers
  import opened StringUtil

  /** The traits class: one name per item, the default item and a description. */
  datatype Traits = Traits(names: seq<string>, staticName: string, default: int)
  {
    /** `N`, the number of items. */
    function Size(): nat
    {
      |names|
    }
  }

  // ---------------------------------------------------------------------------
  // Specification functions

  /** The names joined in order with ", " between neighbours. */
  function ListOf(names: seq<string>): string
  {
    if |names| == 0 then ""
    else if |names| == 1 then names[0]
    else ListOf(names[..|names| - 1]) + ", " + names[|names| - 1]
  }

  /** The total length of the names in `names`. */
  function NamesLength(names: seq<string>): nat
  {
    if names == [] then 0 else NamesLength(names[..|names| - 1]) + |names[|names| - 1]|
  }

  /** The list is every name once, plus two characters between each neighbouring pair. */
  lemma {:induction false} ListOfLength(names: seq<string>)
    requires |names| >= 1
    ensures |ListOf(names)| == NamesLength(names) + 2 * (|names| - 1)
  {
    if |names| > 1 {
      var init := names[..|names| - 1];
      ListOfLength(init);
      assert NamesLength(init) == NamesLength(init[..|init| - 1]) + |init[|init| - 1]| || |init| == 0;
    } else {
      assert names[..0] == [];
    }
  }

  /** Read from the front: the first name, then ", " and the list of the rest. */
  lemma {:induction false} ListOfFront(names: seq<string>)
    requires |names| >= 2
    ensures ListOf(names) == names[0] + ", " + ListOf(names[1..])
  {
    var n := |names|;
    if n == 2 {
      assert names[..1] == [names[0]];
      assert names[1..] == [names[1]];
    } else {
      var init := names[..n - 1];
      ListOfFront(init);
      assert init[1..] == names[1..][..n - 2];
      assert names[1..][n - 2] == names[n - 1];
    }
  }

  /** The first index at or after `from` whose name matches `name` ignoring case. */
  function FirstMatch(names: seq<string>, name: string, from: nat): (r: Option<nat>)
    requires from <= |names|
    decreases |names| - from
  {
    if from == |names| then None
    else if IEquals(names[from], name) then Some(from)
    else FirstMatch(names, name, from + 1)
  }

  /** `FirstMatch` finds the earliest match, and reports none only when no name matches. */
  lemma {:induction false} FirstMatchSpec(names: seq<string>, name: string, from: nat)
    requires from <= |names|
    ensures FirstMatch(names, name, from).Some? ==>
              var i := FirstMatch(names, name, from).value;
              from <= i < |names| && IEquals(names[i], name) &&
              forall j :: from <= j < i ==> !IEquals(names[j], name)
    ensures FirstMatch(names, name, from).None? <==>
              forall j :: from <= j < |names| ==> !IEquals(names[j], name)
    decreases |names| - from
  {
    if from < |names| && !IEquals(names[from], name) {
      FirstMatchSpec(names, name, from + 1);
    }
  }

  /** The `runtime_error` text for a name that matches no item. */
  function UnknownMessage(t: Traits): string
  {
    "Unknown initializer for " + t.staticName + "; choices are " + ListOf(t.names) + "."
  }

  /** What the string constructor yields: the first item whose name matches,
      or a `runtime_error` naming the enumeration and listing the choices. */
  function Lookup(t: Traits, name: string): Result<nat>
  {
    match FirstMatch(t.names, name, 0)
    case Some(i) => Ok(i)
    case None => Err(RuntimeError(UnknownMessage(t)))
  }

  /** The string constructor selects the earliest item whose name equals `name`
      ignoring case, and fails exactly when there is none, with the message
      that names the enumeration and lists the choices. */
  lemma LookupSpec(t: Traits, name: string)
    ensures Lookup(t, name).Ok? ==>
              var i := Lookup(t, name).value;
              i < t.Size() && IEquals(t.names[i], name) &&
              forall j :: 0 <= j < i ==> !IEquals(t.names[j], name)
    ensures Lookup(t, name).Err? <==> forall j :: 0 <= j < t.Size() ==> !IEquals(t.names[j], name)
    ensures Lookup(t, name).Err? ==> Lookup(t, name).error == RuntimeError(UnknownMessage(t))
  {
    FirstMatchSpec(t.names, name, 0);
  }

  /** Names that differ even ignoring case. */
  predicate DistinctNames(names: seq<string>)
  {
    forall i, j :: 0 <= i < j < |names| ==> !IEquals(names[i], names[j])
  }

  /** Round trip: when the names are distinct ignoring case, any spelling of
      item `i`'s name constructs item `i`. */
  lemma LookupOfName(t: Traits, i: nat, spelling: string)
    requires DistinctNames(t.names) && i < t.Size()
    requires IEquals(spelling, t.names[i])
    ensures Lookup(t, spelling) == Ok(i)
  {
    LookupSpec(t, spelling);
    forall j | 0 <= j < t.Size() && IEquals(t.names[j], spelling)
      ensures j == i
    {
      IEqualsIsLowerEquality(t.names[j], spelling, t.names[i]);
      IEqualsIsLowerEquality(t.names[i], t.names[j], spelling);
    }
    assert IEquals(t.names[i], spelling) by {
      IEqualsIsLowerEquality(spelling, t.names[i], spelling);
    }
  }

  // ---------------------------------------------------------------------------
  // The operations that loop over the items

  /** `ListAll`: walks the items from `BEGIN` to `END`, appending ", " before
      every name but the first. */
  method ListAll(t: Traits) returns (result: string)
    ensures result == ListOf(t.names)
  {
    result := "";
    var first := true;
    var a := 0;
    while a < t.Size()
      invariant 0 <= a <= t.Size()
      invariant first <==> a == 0
      invariant result == ListOf(t.names[..a])
    {
      assert t.names[..a + 1][..a] == t.names[..a];
      if !first {
        result := result + ", ";
      }
      result := result + t.names[a];
      first := false;
      a := a + 1;
    }
    assert t.names[..a] == t.names;
  }

  /** `EnumerateAll`: the names, item by item, `N` of them. */
  method EnumerateAll(t: Traits) returns (result: seq<string>)
    ensures |result| == t.Size()
    ensures forall a :: 0 <= a < t.Size() ==> result[a] == t.names[a]
  {
    result := [];
    var a := 0;
    while a < t.Size()
      invariant 0 <= a <= t.Size()
      invariant result == t.names[..a]
    {
      result := result + [t.names[a]];
      a := a + 1;
    }
  }

  /** The string constructor's search: the first item whose name matches
      ignoring case; otherwise the `runtime_error`, whose text lists the
      choices through `ListAll`. */
  method Select(t: Traits, name: string) returns (r: Result<nat>)
    ensures r == Lookup(t, name)
  {
    var a := 0;
    while a < t.Size()
      invariant 0 <= a <= t.Size()
      invariant FirstMatch(t.names, name, 0) == FirstMatch(t.names, name, a)
    {
      if IEquals(t.names[a], name) {
        return Ok(a);
      }
      a := a + 1;
    }
    var choices := ListAll(t);
    return Err(RuntimeError("Unknown initializer for " + t.staticName + "; choices are " + choices + "."));
  }

  // ---------------------------------------------------------------------------
  // The enumeration value

  class NamedEnumeration {
    const traits: Traits
    var e: int

    /** The default constructor: the traits' default item. */
    constructor Default(t: Traits)
      ensures traits == t && e == t.default
    {
      traits := t;
      e := t.default;
    }

    /** The constructor from an item. */
    constructor Of(t: Traits, a: int)
      ensures traits == t && e == a
    {
      traits := t;
      e := a;
    }

    /** The constructor from a name: the item `Select` finds, or its error. */
    static method FromName(t: Traits, name: string) returns (r: Result<NamedEnumeration>)
      ensures r.Ok? ==> fresh(r.value) && r.value.traits == t && Lookup(t, name) == Ok(r.value.e)
      ensures r.Err? ==> Lookup(t, name) == Err(r.error)
    {
      var found := Select(t, name);
      if found.Ok? {
        var v := new NamedEnumeration.Of(t, found.value);
        r := Ok(v);
      } else {
        r := Err(found.error);
      }
    }

    /** `operator++`: the next item (one past the last is `END`). */
    method Increment()
      modifies this
      ensures e == old(e) + 1
    {
      e := e + 1;
    }

    /** `operator--`: the previous item. */
    method Decrement()
      modifies this
      ensures e == old(e) - 1
    {
      e := e - 1;
    }

    /** `Name()`: the name of the current item. */
    function Name(): (s: string)
      reads this
      requires 0 <= e < traits.Size()
      ensures s in traits.names
    {
      traits.names[e]
    }
  }

  // ---------------------------------------------------------------------------
  // The library's example enumeration

  function ExampleTraits(): Traits
  {
    Traits(["alpha", "beta", "gamma"], "example enumeration", 1)
  }

  /** The example lists its names as "alpha, beta, gamma". */
  lemma ExampleList()
    ensures ListOf(ExampleTraits().names) == "alpha, beta, gamma"
  {
    var names := ExampleTraits().names;
    assert names[..2] == ["alpha", "beta"];
    assert names[..2][..1] == ["alpha"];
  }

  /** "GAMMA" constructs the third item, Gamma. */
  lemma ExampleUppercase()
    ensures Lookup(ExampleTraits(), "GAMMA") == Ok(2)
  {
    var names := ExampleTraits().names;
    assert !IEquals(names[0], "GAMMA") by { assert ToLowerChar(names[0][0]) != ToLowerChar("GAMMA"[0]); }
    assert !IEquals(names[1], "GAMMA");
    assert IEquals(names[2], "GAMMA");
  }

  /** "unknown" is rejected. */
  lemma ExampleUnknown()
    ensures Lookup(ExampleTraits(), "unknown").Err?
  {
    var t := ExampleTraits();
    LookupSpec(t, "unknown");
    forall j | 0 <= j < 3 ensures !IEquals(t.names[j], "unknown") {
      assert |t.names[j]| != |"unknown"|;
    }
  }

  /** The rejection message starts by naming the enumeration, and carries the list of choices. */
  lemma MessageNamesEnumeration(t: Traits)
    ensures "Unknown initializer for " + t.staticName <= UnknownMessage(t)
    ensures var k := |"Unknown initializer for " + t.staticName + "; choices are "|;
            UnknownMessage(t)[k..k + |ListOf(t.names)|] == ListOf(t.names)
  {
    var head := "Unknown initializer for " + t.staticName;
    var rest := "; choices are " + ListOf(t.names) + ".";
    assert UnknownMessage(t) == head + rest;
  }
}
