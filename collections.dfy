/**
 * The annotation list: user comments attached to addresses of the program
 * image, kept in a dictionary from address to text. Storing "no text" at an
 * address removes its entry.
 */
module Collections {
  import opened Wrappers

  /** A linear address of the program image. */
  datatype Address = Address(linear: nat)

  /** One user annotation: the address it belongs to and its text. */
  datatype Annotation = Annotation(address: Address, text: string)

  /** No two annotations of `items` share an address. */
  predicate DistinctAddresses(items: seq<Annotation>)
  {
    forall i, j :: 0 <= i < j < |items| ==> items[i].address != items[j].address
  }

  /** The addresses `items` annotates. */
  function AddressesOf(items: seq<Annotation>): set<Address>
  {
    set k | 0 <= k < |items| :: items[k].address
  }

  lemma AddressesOfSnoc(items: seq<Annotation>, x: Annotation)
    ensures AddressesOf(items + [x]) == AddressesOf(items) + {x.address}
  {
    var s := items + [x];
    assert s[|items|] == x;
    forall a | a in AddressesOf(items) ensures a in AddressesOf(s) {
      var k :| 0 <= k < |items| && items[k].address == a;
      assert s[k] == items[k];
    }
  }

  /** Every annotation of `items` carries the text `m` stores at its address. */
  predicate TextsAgree(items: seq<Annotation>, m: map<Address, string>)
  {
    forall k :: 0 <= k < |items| ==> items[k].address in m && m[items[k].address] == items[k].text
  }

  /** Listing one more stored address that is not yet listed keeps the listing exact. */
  lemma EnumerateStep(items: seq<Annotation>, m: map<Address, string>, a: Address)
    requires DistinctAddresses(items) && TextsAgree(items, m)
    requires a in m && a !in AddressesOf(items)
    ensures DistinctAddresses(items + [Annotation(a, m[a])]) && TextsAgree(items + [Annotation(a, m[a])], m)
    ensures AddressesOf(items + [Annotation(a, m[a])]) == AddressesOf(items) + {a}
  {
    var s := items + [Annotation(a, m[a])];
    AddressesOfSnoc(items, Annotation(a, m[a]));
    forall i, j | 0 <= i < j < |s| ensures s[i].address != s[j].address {
      if j == |items| {
        assert s[i].address == items[i].address;
      }
    }
  }

  /** The dictionary that adding `items` one after the other to an empty one produces. */
  function MapOf(items: seq<Annotation>): (m: map<Address, string>)
    ensures m.Keys == AddressesOf(items)
  {
    if items == [] then map[]
    else
      var last := items[|items| - 1];
      var m := MapOf(items[..|items| - 1])[last.address := last.text];
      assert forall k :: 0 <= k < |items| - 1 ==> items[..|items| - 1][k] == items[k];
      m
  }

  /** With distinct addresses, every annotation of `items` is found under its own address. */
  lemma {:induction false} MapOfLookup(items: seq<Annotation>, k: nat)
    requires DistinctAddresses(items) && k < |items|
    ensures MapOf(items)[items[k].address] == items[k].text
  {
    var n := |items| - 1;
    if k < n {
      var init := items[..n];
      assert init[k] == items[k];
      MapOfLookup(init, k);
      assert items[k].address != items[n].address;
    }
  }

  /** The annotations stored in a program, keyed by address. */
  class AnnotationList {
    var annotations: map<Address, string>

    constructor ()
      ensures annotations == map[]
    {
      annotations := map[];
    }

    /**
     * Builds the list from `items`, adding them in order; adding an address
     * that is already present fails, so the addresses must be distinct.
     */
    constructor FromSequence(items: seq<Annotation>)
      requires DistinctAddresses(items)
      ensures annotations.Keys == AddressesOf(items)
      ensures forall k :: 0 <= k < |items| ==> Get(items[k].address) == Some(items[k].text)
    {
      var m: map<Address, string> := map[];
      var i := 0;
      while i < |items|
        invariant 0 <= i <= |items|
        invariant m == MapOf(items[..i])
      {
        assert items[i].address !in m by {
          assert forall k :: 0 <= k < i ==> items[..i][k] == items[k];
        }
        assert items[..i + 1][..i] == items[..i];
        m := m[items[i].address := items[i].text];
        i := i + 1;
      }
      assert items[..i] == items;
      annotations := m;
      new;
      forall k | 0 <= k < |items| ensures Get(items[k].address) == Some(items[k].text) {
        MapOfLookup(items, k);
      }
    }

    /** The text at `addr`, or None when the address has no annotation. */
    function Get(addr: Address): (r: Option<string>)
      reads this
      ensures r.None? <==> addr !in annotations
      ensures r.Some? ==> r.value == annotations[addr]
    {
      if addr in annotations then Some(annotations[addr]) else None
    }

    /** Stores `value` at `addr`; storing None removes the annotation. */
    method Set(addr: Address, value: Option<string>)
      modifies this
      ensures annotations == if value.None? then old(annotations) - {addr} else old(annotations)[addr := value.value]
      ensures Get(addr) == value
      ensures forall a :: a != addr ==> Get(a) == old(Get(a))
    {
      if value.None? {
        annotations := annotations - {addr};
      } else {
        annotations := annotations[addr := value.value];
      }
    }

    /** Removes the annotation at `addr`, if there is one. */
    method Remove(addr: Address)
      modifies this
      ensures annotations == old(annotations) - {addr}
      ensures Get(addr) == None
      ensures forall a :: a != addr ==> Get(a) == old(Get(a))
    {
      annotations := annotations - {addr};
    }

    /** The stored annotations, one per address, in no particular order. */
    method Enumerate() returns (items: seq<Annotation>)
      ensures DistinctAddresses(items)
      ensures AddressesOf(items) == annotations.Keys
      ensures |items| == |annotations.Keys|
      ensures TextsAgree(items, annotations)
    {
      var m := annotations;
      items := [];
      var rest := m.Keys;
      while rest != {}
        invariant rest <= m.Keys
        invariant DistinctAddresses(items) && TextsAgree(items, m)
        invariant AddressesOf(items) == m.Keys - rest
        invariant |items| + |rest| == |m.Keys|
        decreases rest
      {
        var a :| a in rest;
        EnumerateStep(items, m, a);
        items := items + [Annotation(a, m[a])];
        rest := rest - {a};
      }
    }
  }
}
