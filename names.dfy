/** The linear name lookup that both registries use (`get_parser_by_name` in
    rle-genops.c and `get_rle_by_name` in rle-variant-selection.h): scan the
    table front to back and stop at the first entry whose name compares
    equal under `strcmp`. */
module Names {
  import opened Bytes

  /** The index of the first name equal to `name`, or None when no entry has
      that name. */
  method FindByName(names: seq<string>, name: string) returns (r: Option<nat>)
    ensures r.Some? ==> r.value < |names| && names[r.value] == name
    ensures r.Some? ==> forall j :: 0 <= j < r.value ==> names[j] != name
    ensures r.None? <==> forall j :: 0 <= j < |names| ==> names[j] != name
  {
    var i := 0;
    while i < |names|
      invariant 0 <= i <= |names|
      invariant forall j :: 0 <= j < i ==> names[j] != name
    {
      if names[i] == name {
        return Some(i);
      }
      i := i + 1;
    }
    return None;
  }
}
