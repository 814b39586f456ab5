/** The element list of Composition Data page 0 (Mesh Profile section 4.2.1) and the map from model
    identifiers to element addresses that is read from it. */
module Composition {
  import opened Bytes

  /** Location, SIG model identifiers, and the vendor models left as bytes. */
  datatype Element = Element(location: bytes, models: seq<u16>, vendor: bytes)

  predicate Encodable(e: Element) {
    |e.location| == 2 && |e.models| < 256 && |e.vendor| % 4 == 0 && |e.vendor| / 4 < 256
  }

  predicate AllEncodable(es: seq<Element>) { forall i :: 0 <= i < |es| ==> Encodable(es[i]) }

  function LittleEndian(n: u16): (b: bytes) ensures |b| == 2 { [n % 256, n / 256] }

  function EncodeModels(models: seq<u16>): (b: bytes)
    ensures |b| == 2 * |models|
  {
    if models == [] then [] else LittleEndian(models[0]) + EncodeModels(models[1..])
  }

  function EncodeElement(e: Element): (b: bytes)
    requires Encodable(e)
    ensures |b| == 4 + 2 * |e.models| + |e.vendor|
  {
    e.location + [|e.models|, |e.vendor| / 4] + EncodeModels(e.models) + e.vendor
  }

  function EncodeElements(es: seq<Element>): bytes
    requires AllEncodable(es)
  {
    if es == [] then [] else EncodeElement(es[0]) + EncodeElements(es[1..])
  }

  // ---- Parsing

  function Count(raw: bytes, i: nat): nat
    requires i < |raw|
  {
    raw[i]
  }

  function ElementSize(raw: bytes): (size: nat)
    requires |raw| >= 4
  {
    4 + Count(raw, 2) * 2 + Count(raw, 3) * 4
  }

  function ModelAt(raw: bytes, offset: nat): u16
    requires offset + 2 <= |raw|
  {
    FromU16([raw[offset + 1], raw[offset]])
  }

  function Models(raw: bytes, count: nat): (models: seq<u16>)
    requires 2 * count <= |raw|
    ensures |models| == count
  {
    seq(count, i requires 0 <= i < count => ModelAt(raw, 2 * i))
  }

  function ParseElement(raw: bytes): Element
    requires |raw| >= 4 && ElementSize(raw) <= |raw|
  {
    var size, numSig := ElementSize(raw), Count(raw, 2);
    Element(raw[..2], Models(raw[4..], numSig), raw[4 + 2 * numSig..size])
  }

  function After(done: seq<Element>, rest: Option<seq<Element>>): Option<seq<Element>> {
    match rest
    case None => None
    case Some(more) => Some(done + more)
  }

  function ParseElements(raw: bytes): Option<seq<Element>>
    decreases |raw|
  {
    if raw == [] then Some([])
    else if |raw| < 4 || |raw| < ElementSize(raw) then None
    else
      After([ParseElement(raw)], ParseElements(raw[ElementSize(raw)..]))
  }

  // ---- Exactly the encodings are accepted

  lemma {:induction false} ModelsOfEncoded(models: seq<u16>, tail: bytes)
    ensures Models(EncodeModels(models) + tail, |models|) == models
  {
    if models == [] {
    } else {
      var rest := EncodeModels(models[1..]) + tail;
      var raw := EncodeModels(models) + tail;
      assert raw == LittleEndian(models[0]) + rest;
      ModelsOfEncoded(models[1..], tail);
      forall i | 0 <= i < |models| ensures Models(raw, |models|)[i] == models[i] {
        if i > 0 {
          assert Models(rest, |models| - 1)[i - 1] == ModelAt(rest, 2 * (i - 1)) == ModelAt(raw, 2 * i);
        }
      }
    }
  }

  lemma {:induction false} EncodedOfModels(raw: bytes, count: nat)
    requires 2 * count <= |raw|
    ensures EncodeModels(Models(raw, count)) == raw[..2 * count]
    decreases count
  {
    if count == 0 {
    } else {
      EncodedOfModels(raw[2..], count - 1);
      assert Models(raw, count)[1..] == Models(raw[2..], count - 1);
      assert LittleEndian(ModelAt(raw, 0)) == raw[..2];
      assert raw[..2 * count] == raw[..2] + raw[2..][..2 * (count - 1)];
    }
  }

  lemma ElementRoundTrip(e: Element, tail: bytes)
    requires Encodable(e)
    ensures var raw := EncodeElement(e) + tail;
      |raw| >= 4 && ElementSize(raw) == |EncodeElement(e)| && ParseElement(raw) == e &&
      raw[ElementSize(raw)..] == tail
  {
    var raw := EncodeElement(e) + tail;
    assert raw[2] == |e.models| && raw[3] == |e.vendor| / 4 && raw[..2] == e.location;
    assert raw[4..] == EncodeModels(e.models) + (e.vendor + tail);
    ModelsOfEncoded(e.models, e.vendor + tail);
    assert raw[4 + 2 * |e.models|..ElementSize(raw)] == e.vendor;
  }

  lemma ParseCons(raw: bytes)
    requires |raw| >= 4 && ElementSize(raw) <= |raw|
    ensures ParseElements(raw) == After([ParseElement(raw)], ParseElements(raw[ElementSize(raw)..]))
  {
    hide ParseElement;
    hide ElementSize;
    hide After;
  }

  lemma EncodeCons(e: Element, rest: seq<Element>)
    requires Encodable(e) && AllEncodable(rest)
    ensures AllEncodable([e] + rest)
    ensures EncodeElements([e] + rest) == EncodeElement(e) + EncodeElements(rest)
  {
    hide Encodable;
    hide EncodeElement;
    assert ([e] + rest)[0] == e && ([e] + rest)[1..] == rest;
  }

  lemma {:induction false} ParseUndoesEncode(es: seq<Element>)
    requires AllEncodable(es)
    ensures ParseElements(EncodeElements(es)) == Some(es)
  {
    if es == [] {
    } else {
      var e, rest := es[0], es[1..];
      assert es == [e] + rest;
      EncodeCons(e, rest);
      hide EncodeElements;
      hide ParseElements;
      ElementRoundTrip(e, EncodeElements(rest));
      hide EncodeElement;
      hide ParseElement;
      hide ElementSize;
      ParseUndoesEncode(rest);
      ParseCons(EncodeElement(e) + EncodeElements(rest));
    }
  }

  lemma ParsedElementEncodes(raw: bytes)
    requires |raw| >= 4 && ElementSize(raw) <= |raw|
    ensures Encodable(ParseElement(raw)) && EncodeElement(ParseElement(raw)) == raw[..ElementSize(raw)]
  {
    var e, size, numSig := ParseElement(raw), ElementSize(raw), Count(raw, 2);
    EncodedOfModels(raw[4..], numSig);
    assert |e.vendor| == 4 * Count(raw, 3);
    assert raw[4..][..2 * numSig] == raw[4..4 + 2 * numSig];
    assert raw[..size] == raw[..2] + [raw[2], raw[3]] + raw[4..4 + 2 * numSig] + raw[4 + 2 * numSig..size];
  }

  lemma EncodeFirst(raw: bytes, rest: seq<Element>)
    requires |raw| >= 4 && ElementSize(raw) <= |raw|
    requires AllEncodable(rest) && EncodeElements(rest) == raw[ElementSize(raw)..]
    ensures AllEncodable([ParseElement(raw)] + rest) && EncodeElements([ParseElement(raw)] + rest) == raw
  {
    ParsedElementEncodes(raw);
    hide ParseElement;
    hide ElementSize;
    EncodeCons(ParseElement(raw), rest);
    hide EncodeElement;
    hide EncodeElements;
    hide AllEncodable;
    assert raw == raw[..ElementSize(raw)] + raw[ElementSize(raw)..];
  }

  lemma {:induction false} EncodeUndoesParse(raw: bytes)
    requires ParseElements(raw).Some?
    ensures AllEncodable(ParseElements(raw).value) && EncodeElements(ParseElements(raw).value) == raw
    decreases |raw|
  {
    if raw == [] {
    } else {
      hide ParseElement;
      hide EncodeElements;
      hide ElementSize;
      hide AllEncodable;
      EncodeUndoesParse(raw[ElementSize(raw)..]);
      EncodeFirst(raw, ParseElements(raw[ElementSize(raw)..]).value);
    }
  }

  /** A byte string is accepted exactly when it is the encoding of some list of elements, and then
      of the one that is read. */
  lemma AcceptsExactlyEncodings(raw: bytes)
    ensures ParseElements(raw).Some? <==> exists es :: AllEncodable(es) && EncodeElements(es) == raw
    ensures forall es :: AllEncodable(es) && EncodeElements(es) == raw ==> ParseElements(raw) == Some(es)
  {
    if ParseElements(raw).Some? { EncodeUndoesParse(raw); }
    forall es | AllEncodable(es) && EncodeElements(es) == raw ensures ParseElements(raw) == Some(es) {
      ParseUndoesEncode(es);
    }
  }

  // ---- The model map

  /** Index of the first element that lists the model; |es| when none does. */
  function FirstListing(es: seq<Element>, id: u16): (i: nat)
    ensures i <= |es| && (i < |es| ==> id in es[i].models)
    ensures forall j :: 0 <= j < i ==> id !in es[j].models
  {
    if es == [] || id in es[0].models then 0 else 1 + FirstListing(es[1..], id)
  }

  predicate MapsToFirst(result: map<u16, nat>, es: seq<Element>, primary: nat) {
    && (forall id :: id in result <==> FirstListing(es, id) < |es|)
    && (forall id :: id in result ==> result[id] == primary + FirstListing(es, id))
  }

  lemma {:induction false} FirstListingAppend(es: seq<Element>, e: Element, id: u16)
    ensures FirstListing(es + [e], id) ==
      if FirstListing(es, id) < |es| then FirstListing(es, id)
      else if id in e.models then |es| else |es| + 1
  {
    var i, j := FirstListing(es, id), FirstListing(es + [e], id);
    assert forall k :: 0 <= k < |es| ==> (es + [e])[k] == es[k];
    assert (es + [e])[|es|] == e;
  }

  /** The inner loop over one element: models already known keep their address. */
  method AddModels(raw: bytes, sigOffset: nat, numSig: nat, address: nat, before: map<u16, nat>)
    returns (result: map<u16, nat>)
    requires sigOffset + 2 * numSig <= |raw|
    ensures var models := Models(raw[sigOffset..], numSig);
      (forall id :: id in result <==> id in before || id in models) &&
      (forall id :: id in result ==> result[id] == if id in before then before[id] else address)
  {
    ghost var models := Models(raw[sigOffset..], numSig);
    result := before;
    for index := 0 to numSig
      invariant forall id :: id in result <==> id in before || id in models[..index]
      invariant forall id :: id in result ==> result[id] == if id in before then before[id] else address
    {
      var modelId := ModelAt(raw, sigOffset + 2 * index);
      assert models[index] == modelId && models[..index + 1] == models[..index] + [modelId];
      if modelId !in result { result := result[modelId := address]; }
    }
    assert models[..numSig] == models;
  }

  lemma MapExtends(before: map<u16, nat>, after: map<u16, nat>, es: seq<Element>, e: Element, primary: nat)
    requires MapsToFirst(before, es, primary)
    requires forall id :: id in after <==> id in before || id in e.models
    requires forall id :: id in after ==> after[id] == if id in before then before[id] else primary + |es|
    ensures MapsToFirst(after, es + [e], primary)
  {
    forall id: u16
      ensures id in after <==> FirstListing(es + [e], id) < |es| + 1
      ensures id in after ==> after[id] == primary + FirstListing(es + [e], id)
    {
      FirstListingAppend(es, e, id);
    }
  }

  lemma NothingParses()
    ensures ParseElements([]) == Some([])
    ensures forall primary :: MapsToFirst(map[], [], primary)
  {
  }

  lemma AfterNone(rest: Option<seq<Element>>)
    ensures After([], rest) == rest
  {
    if rest.Some? { assert [] + rest.value == rest.value; }
  }

  lemma AfterOne(done: seq<Element>, e: Element, rest: Option<seq<Element>>)
    ensures After(done, After([e], rest)) == After(done + [e], rest)
  {
    if rest.Some? { assert done + ([e] + rest.value) == done + [e] + rest.value; }
  }

  lemma ParseAt(raw: bytes, offset: nat)
    requires offset < |raw|
    ensures ParseElements(raw[offset..]) ==
      if |raw| - offset < 4 then None
      else
        var size := 4 + Count(raw, offset + 2) * 2 + Count(raw, offset + 3) * 4;
        if offset + size > |raw| then None
        else After([ParseElement(raw[offset..])], ParseElements(raw[offset + size..]))
  {
    var rest := raw[offset..];
    if |rest| >= 4 && |rest| >= ElementSize(rest) {
      assert rest[ElementSize(rest)..] == raw[offset + ElementSize(rest)..];
    }
  }

  lemma ModelsAt(raw: bytes, offset: nat)
    requires |raw| - offset >= 4
    requires offset + 4 + Count(raw, offset + 2) * 2 + Count(raw, offset + 3) * 4 <= |raw|
    ensures ParseElement(raw[offset..]).models == Models(raw[offset + 4..], Count(raw, offset + 2))
  {
    assert raw[offset..][4..] == raw[offset + 4..];
  }

  /** `_sig_model_elements`: raises on all but encodings; otherwise each listed SIG model maps to the
      primary address plus the index of the first element that lists it. */
  method SigModelElements(raw: bytes, primary: nat) returns (r: Result<map<u16, nat>>)
    ensures r.Ok? <==> ParseElements(raw).Some?
    ensures r.Ok? ==> MapsToFirst(r.value, ParseElements(raw).value, primary)
    ensures r.Raised? ==> r.error == ValueError
  {
    hide ParseElements;
    hide ParseElement;
    hide Models;
    hide MapsToFirst;
    NothingParses();
    var result: map<u16, nat> := map[];
    var offset, address := 0, primary;
    ghost var done: seq<Element> := [];
    assert raw[0..] == raw;
    AfterNone(ParseElements(raw));
    while offset < |raw|
      invariant offset <= |raw|
      invariant address == primary + |done| && MapsToFirst(result, done, primary)
      invariant ParseElements(raw) == After(done, ParseElements(raw[offset..]))
    {
      ParseAt(raw, offset);
      if |raw| - offset < 4 { return Raised(ValueError); }
      var numSig, numVendor := Count(raw, offset + 2), Count(raw, offset + 3);
      var elementSize := 4 + numSig * 2 + numVendor * 4;
      if offset + elementSize > |raw| { return Raised(ValueError); }
      ghost var before := result;
      result := AddModels(raw, offset + 4, numSig, address, result);
      ghost var e := ParseElement(raw[offset..]);
      ModelsAt(raw, offset);
      MapExtends(before, result, done, e, primary);
      AfterOne(done, e, ParseElements(raw[offset + elementSize..]));
      done := done + [e];
      offset := offset + elementSize;
      address := address + 1;
    }
    assert raw[|raw|..] == [] && done + [] == done;
    r := Ok(result);
  }

  // ---- An element, byte by byte

  lemma {:induction false} ModelLayout(models: seq<u16>, j: nat)
    requires j < |models|
    ensures TwoDigits(EncodeModels(models)[2 * j + 1], EncodeModels(models)[2 * j]) == models[j]
  {
    if j == 0 {
    } else {
      ModelLayout(models[1..], j - 1);
    }
  }

  /** Location, the two counts, the SIG models with the low byte first, the vendor models. */
  lemma ElementLayout(e: Element, rest: seq<Element>)
    requires Encodable(e) && AllEncodable(rest)
    ensures var b := EncodeElement(e);
      && |b| == 4 + 2 * |e.models| + |e.vendor|
      && b[..2] == e.location && b[2] == |e.models| && 4 * b[3] as int == |e.vendor|
      && (forall j :: 0 <= j < |e.models| ==> TwoDigits(b[4 + 2 * j + 1], b[4 + 2 * j]) == e.models[j])
      && b[4 + 2 * |e.models|..] == e.vendor
    ensures AllEncodable([e] + rest) && EncodeElements([]) == []
    ensures EncodeElements([e] + rest) == EncodeElement(e) + EncodeElements(rest)
  {
    EncodeCons(e, rest);
    hide EncodeModels;
    var b := EncodeElement(e);
    forall j | 0 <= j < |e.models| ensures TwoDigits(b[4 + 2 * j + 1], b[4 + 2 * j]) == e.models[j] {
      ModelLayout(e.models, j);
      assert b[4 + 2 * j] == EncodeModels(e.models)[2 * j] && b[4 + 2 * j + 1] == EncodeModels(e.models)[2 * j + 1];
    }
  }
}
