/**
  all_crops.py: the crop list of the agricultural-products API. When the
  payload reports success, every item with a truthy `CropCode` and `CropName`
  is written into a dict keyed by the code, and the dict's items become the
  `{code, name}` result list. A Python dict keeps its keys in first-insertion
  order, keeps the key object it first saw, and lets the last write win.
*/
module AllCrops {
  import opened Wrappers
  import opened Json

  /** One `{"code": ..., "name": ...}` entry of the result. */
  datatype Crop = Crop(code: Value, name: Value)

  /**
    Python key equality on JSON scalars: `True == 1` and `False == 0` (and they
    hash alike), so a boolean and the matching number are one dict key.
  */
  function Key(v: Value): (k: Value)
    ensures !k.Bool? && (!v.Bool? ==> k == v)
    ensures v.Bool? ==> k == Num(if v.b then 1.0 else 0.0)
  {
    if v.Bool? then Num(if v.b then 1.0 else 0.0) else v
  }

  /** `if crop_code and crop_name`. */
  predicate Qualifies(item: Record)
  {
    Truthy(Get(item, "CropCode")) && Truthy(Get(item, "CropName"))
  }

  function CodeOf(item: Record): Value
    requires Qualifies(item)
  {
    Get(item, "CropCode").value
  }

  function NameOf(item: Record): Value
    requires Qualifies(item)
  {
    Get(item, "CropName").value
  }

  /** `data.get("Data", [])`. */
  function Items(payload: Payload): seq<Record>
  {
    if payload.data.Some? then payload.data.value else []
  }

  // ---------------------------------------------------------------- the dict

  /**
    The state of `crop_dict`: the key objects in insertion order, and the name
    stored under each key (indexed by its `Key`).
  */
  datatype Dict = Dict(keys: seq<Value>, names: map<Value, Value>)

  /** The keys of `ks` as the dict compares them. */
  function KeysOf(ks: seq<Value>): (r: seq<Value>)
    ensures |r| == |ks| && forall p :: 0 <= p < |ks| ==> r[p] == Key(ks[p])
  {
    seq(|ks|, p requires 0 <= p < |ks| => Key(ks[p]))
  }

  /** Every key has a name. */
  ghost predicate Named(d: Dict)
  {
    forall p :: 0 <= p < |d.keys| ==> Key(d.keys[p]) in d.names
  }

  /** Every key is stored once and has a name, and nothing else has one. */
  ghost predicate WellFormed(d: Dict)
  {
    && (forall p, q :: 0 <= p < q < |d.keys| ==> Key(d.keys[p]) != Key(d.keys[q]))
    && Named(d)
    && (forall k :: k in d.names ==> k in KeysOf(d.keys))
  }

  /** `crop_dict[code] = name`: a new key goes last, an existing one keeps its place and its key object. */
  function Assign(d: Dict, code: Value, name: Value): (r: Dict)
    ensures Key(code) in r.names && r.names[Key(code)] == name
    ensures forall k :: k in d.names && k != Key(code) ==> k in r.names && r.names[k] == d.names[k]
    ensures |d.keys| <= |r.keys| <= |d.keys| + 1 && r.keys[..|d.keys|] == d.keys
  {
    if Key(code) in d.names then Dict(d.keys, d.names[Key(code) := name])
    else Dict(d.keys + [code], d.names[Key(code) := name])
  }

  /** Assignment keeps every key once, each with a name, and names nothing else. */
  lemma AssignWellFormed(d: Dict, code: Value, name: Value)
    requires WellFormed(d)
    ensures WellFormed(Assign(d, code, name))
  {
    var r := Assign(d, code, name);
    if Key(code) !in d.names {
      assert forall p :: 0 <= p < |d.keys| ==> r.keys[p] == d.keys[p];
      assert KeysOf(r.keys) == KeysOf(d.keys) + [Key(code)];
    }
  }

  /** One turn of the loop: an item that does not qualify leaves the dict alone. */
  function Step(d: Dict, item: Record): Dict
  {
    if Qualifies(item) then Assign(d, CodeOf(item), NameOf(item)) else d
  }

  /** `crop_dict` after the loop has seen `items`. */
  function Fill(items: seq<Record>): (d: Dict)
    ensures Named(d)
  {
    if items == [] then Dict([], map[])
    else
      var n := |items| - 1;
      var d := Step(Fill(items[..n]), items[n]);
      assert forall p :: 0 <= p < |Fill(items[..n]).keys| ==> d.keys[p] == Fill(items[..n]).keys[p];
      d
  }

  lemma {:induction false} FillWellFormed(items: seq<Record>)
    ensures WellFormed(Fill(items))
  {
    if items != [] {
      var n := |items| - 1;
      FillWellFormed(items[..n]);
      if Qualifies(items[n]) {
        AssignWellFormed(Fill(items[..n]), CodeOf(items[n]), NameOf(items[n]));
      }
    }
  }

  /** The list comprehension over `crop_dict.items()`. */
  function CropList(d: Dict): (crops: seq<Crop>)
    requires Named(d)
    ensures |crops| == |d.keys|
    ensures forall p :: 0 <= p < |d.keys| ==> crops[p] == Crop(d.keys[p], d.names[Key(d.keys[p])])
  {
    seq(|d.keys|, p requires 0 <= p < |d.keys| => Crop(d.keys[p], d.names[Key(d.keys[p])]))
  }

  /**
    The script's extraction: no result unless `RS` is `"OK"`; otherwise the
    dict is filled item by item and turned into the result list.
  */
  method ExtractCrops(payload: Payload) returns (result: Option<seq<Crop>>)
    ensures payload.rs != Some(Str("OK")) ==> result == None
    ensures payload.rs == Some(Str("OK")) ==> result == Some(CropList(Fill(Items(payload))))
    ensures payload.rs == Some(Str("OK")) && payload.data.None? ==> result == Some([])
  {
    if payload.rs != Some(Str("OK")) {
      return None;
    }
    var keys, names := FillDict(Items(payload));
    return Some(CropList(Dict(keys, names)));
  }

  /** The loop over `data.get("Data", [])` that writes `crop_dict`. */
  method FillDict(items: seq<Record>) returns (keys: seq<Value>, names: map<Value, Value>)
    ensures Dict(keys, names) == Fill(items)
  {
    keys, names := [], map[];
    var i := 0;
    while i < |items|
      invariant 0 <= i <= |items|
      invariant Dict(keys, names) == Fill(items[..i])
    {
      assert items[..i + 1][..i] == items[..i];
      var item := items[i];
      var code := Get(item, "CropCode");
      var name := Get(item, "CropName");
      if Truthy(code) && Truthy(name) {
        if Key(code.value) !in names {
          keys := keys + [code.value];
        }
        names := names[Key(code.value) := name.value];
      }
      i := i + 1;
    }
    assert items[..i] == items;
  }

  // ---------------------------------------------------------------- what the dict holds

  /** Item `i` qualifies and no earlier qualifying item has an equal code. */
  ghost predicate FirstOfKey(items: seq<Record>, i: int)
  {
    && 0 <= i < |items| && Qualifies(items[i])
    && forall j :: 0 <= j < i && Qualifies(items[j]) ==> Key(CodeOf(items[j])) != Key(CodeOf(items[i]))
  }

  /** Item `i` qualifies and no later qualifying item has an equal code. */
  ghost predicate LastOfKey(items: seq<Record>, i: int)
  {
    && 0 <= i < |items| && Qualifies(items[i])
    && forall j :: i < j < |items| && Qualifies(items[j]) ==> Key(CodeOf(items[j])) != Key(CodeOf(items[i]))
  }

  /** Reference order of the keys: the code of every item that is the first of its key, in item order. */
  ghost function FirstCodes(items: seq<Record>): (codes: seq<Option<Value>>)
    ensures |codes| == |items|
  {
    seq(|items|, i requires 0 <= i < |items| => if FirstOfKey(items, i) then Some(CodeOf(items[i])) else None)
  }

  lemma FirstCodesPrefix(items: seq<Record>, n: nat)
    requires n <= |items|
    ensures FirstCodes(items[..n]) == FirstCodes(items)[..n]
  {
    var pre := items[..n];
    forall i | 0 <= i < n
      ensures FirstOfKey(pre, i) == FirstOfKey(items, i)
    {
      assert forall j :: 0 <= j <= i ==> pre[j] == items[j];
    }
  }

  /** The key set of `crop_dict` is exactly the set of qualifying codes. */
  lemma {:induction false} FillKeySet(items: seq<Record>)
    ensures forall k :: k in Fill(items).names <==>
              exists i :: 0 <= i < |items| && Qualifies(items[i]) && Key(CodeOf(items[i])) == k
  {
    if items != [] {
      var n := |items| - 1;
      var pre := items[..n];
      assert forall j :: 0 <= j < n ==> pre[j] == items[j];
      FillKeySet(pre);
    }
  }

  /** Under the key set of the dict so far, item `n` is the first of its key exactly when its code is new. */
  lemma FirstOfKeyIsNew(items: seq<Record>, n: nat)
    requires n < |items| && Qualifies(items[n])
    ensures FirstOfKey(items, n) <==> Key(CodeOf(items[n])) !in Fill(items[..n]).names
  {
    var pre := items[..n];
    FillKeySet(pre);
    assert forall j :: 0 <= j < n ==> pre[j] == items[j];
  }

  /**
    The keys of `crop_dict`, in order, are the codes of the items that are the
    first of their key, in item order, each the key object of that first item.
  */
  lemma {:induction false} FillKeyOrder(items: seq<Record>)
    ensures Fill(items).keys == Present(FirstCodes(items))
  {
    if items != [] {
      var n := |items| - 1;
      var pre := items[..n];
      FillKeyOrder(pre);
      FirstCodesPrefix(items, n);
      assert FirstCodes(items) == FirstCodes(pre) + [FirstCodes(items)[n]];
      PresentSnoc(FirstCodes(pre), FirstCodes(items)[n]);
      var d := Fill(pre);
      assert Fill(items) == Step(d, items[n]);
      if Qualifies(items[n]) {
        FirstOfKeyIsNew(items, n);
        if Key(CodeOf(items[n])) in d.names {
          assert FirstCodes(items)[n] == None;
          assert Fill(items).keys == d.keys;
        } else {
          assert FirstCodes(items)[n] == Some(CodeOf(items[n]));
          assert Fill(items).keys == d.keys + [CodeOf(items[n])];
        }
      } else {
        assert FirstCodes(items)[n] == None;
      }
    }
  }

  /** The name stored under a code is the name of the last qualifying item carrying that code. */
  lemma {:induction false} FillNames(items: seq<Record>)
    ensures forall i :: LastOfKey(items, i) ==>
              Key(CodeOf(items[i])) in Fill(items).names && Fill(items).names[Key(CodeOf(items[i]))] == NameOf(items[i])
  {
    if items != [] {
      var n := |items| - 1;
      var pre := items[..n];
      assert forall j :: 0 <= j < n ==> pre[j] == items[j];
      FillNames(pre);
      forall i | LastOfKey(items, i)
        ensures Key(CodeOf(items[i])) in Fill(items).names && Fill(items).names[Key(CodeOf(items[i]))] == NameOf(items[i])
      {
        if i < n {
          assert LastOfKey(pre, i);
        }
      }
    }
  }

  lemma FillSnoc(items: seq<Record>, item: Record)
    ensures Fill(items + [item]) == Step(Fill(items), item)
  {
    assert (items + [item])[..|items|] == items;
  }

  /** An item that does not qualify changes nothing, wherever it stands. */
  lemma {:induction false} NonQualifyingIgnored(before: seq<Record>, item: Record, after: seq<Record>)
    requires !Qualifies(item)
    ensures Fill(before + [item] + after) == Fill(before + after)
  {
    if after == [] {
      assert before + [item] + after == before + [item];
      assert before + after == before;
      FillSnoc(before, item);
    } else {
      var n := |after| - 1;
      NonQualifyingIgnored(before, item, after[..n]);
      assert before + [item] + after == (before + [item] + after[..n]) + [after[n]];
      assert before + after == (before + after[..n]) + [after[n]];
      FillSnoc(before + [item] + after[..n], after[n]);
      FillSnoc(before + after[..n], after[n]);
    }
  }

  /**
    The result list has one entry per item that is the first of its key, in
    item order, carrying the code object of that first item.
  */
  lemma CropListOrder(items: seq<Record>)
    ensures var crops := CropList(Fill(items));
      && |crops| == |Present(FirstCodes(items))|
      && (forall p :: 0 <= p < |crops| ==> crops[p].code == Present(FirstCodes(items))[p])
  {
    FillKeyOrder(items);
  }

  /** Every entry of the result list carries the code object of an item that is the first of its key. */
  lemma CropListProvenance(items: seq<Record>)
    ensures forall p :: 0 <= p < |CropList(Fill(items))| ==>
      exists i :: FirstOfKey(items, i) && CropList(Fill(items))[p].code == CodeOf(items[i])
  {
    FillKeyOrder(items);
    var codes := FirstCodes(items);
    PresentProvenance(codes);
    forall p | 0 <= p < |CropList(Fill(items))|
      ensures exists i :: FirstOfKey(items, i) && CropList(Fill(items))[p].code == CodeOf(items[i])
    {
      var c := Present(codes)[p];
      assert c in Present(codes);
      var i :| 0 <= i < |codes| && codes[i] == Some(c);
      assert FirstOfKey(items, i) && CodeOf(items[i]) == c;
    }
  }

  /** No two entries of the result list carry equal codes. */
  lemma CropListDistinct(items: seq<Record>)
    ensures var crops := CropList(Fill(items));
      forall p, q :: 0 <= p < q < |crops| ==> Key(crops[p].code) != Key(crops[q].code)
  {
    FillWellFormed(items);
  }

  /** Some entry of `crops` carries a code equal to `code`. */
  ghost predicate Listed(crops: seq<Crop>, code: Value)
  {
    exists p :: 0 <= p < |crops| && Key(crops[p].code) == Key(code)
  }

  /** Some entry of `crops` carries a code equal to `code` and the name `name`. */
  ghost predicate ListedWithName(crops: seq<Crop>, code: Value, name: Value)
  {
    exists p :: 0 <= p < |crops| && Key(crops[p].code) == Key(code) && crops[p].name == name
  }

  /** Every qualifying item's code has an entry in the result list. */
  lemma CropListCovers(items: seq<Record>)
    ensures forall i :: 0 <= i < |items| && Qualifies(items[i]) ==> Listed(CropList(Fill(items)), CodeOf(items[i]))
  {
    FillKeySet(items);
    FillWellFormed(items);
    var d := Fill(items);
    forall i | 0 <= i < |items| && Qualifies(items[i])
      ensures Listed(CropList(d), CodeOf(items[i]))
    {
      var k := Key(CodeOf(items[i]));
      assert k in KeysOf(d.keys);
      var p :| 0 <= p < |d.keys| && KeysOf(d.keys)[p] == k;
      assert CropList(d)[p].code == d.keys[p];
    }
  }

  /** The entry for a code carries the name of the last qualifying item with that code. */
  lemma CropListNames(items: seq<Record>)
    ensures forall i :: LastOfKey(items, i) ==> ListedWithName(CropList(Fill(items)), CodeOf(items[i]), NameOf(items[i]))
  {
    FillNames(items);
    FillWellFormed(items);
    var d := Fill(items);
    var crops := CropList(d);
    forall i | LastOfKey(items, i)
      ensures ListedWithName(crops, CodeOf(items[i]), NameOf(items[i]))
    {
      var k := Key(CodeOf(items[i]));
      assert k in KeysOf(d.keys);
      var p :| 0 <= p < |d.keys| && KeysOf(d.keys)[p] == k;
      assert crops[p] == Crop(d.keys[p], d.names[k]);
    }
  }
}
