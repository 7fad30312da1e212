/**
 * `FragmentStackItem` and its parcel encoding: the class name, then for each
 * of the two optional payloads a presence byte (1 or 0) followed by the
 * payload when present; `CREATOR` reads them back in the same order.
 *
 * A parcel is modelled as a sequence of typed values with a read position.
 * The internals of `Bundle` and `Fragment.SavedState`, and how they lay
 * themselves out in a parcel, are not part of this model: each is one value.
 */
module FragmentParcel {
  import opened Wrappers

  /** An Android `Bundle` (fragment arguments); its contents are opaque here. */
  type Bundle(==)

  /** A `Fragment.SavedState`; its contents are opaque here. */
  type SavedState(==)

  /** Kotlin's `Byte`. */
  newtype Int8 = x: int | -128 <= x < 128

  /** One value as written into a parcel. */
  datatype Value =
    | StringValue(s: Option<string>)
    | ByteValue(b: Int8)
    | BundleValue(bundle: Bundle)
    | SavedStateValue(state: SavedState)

  /** One entry of the activity's back stack: which fragment, its arguments, its saved state. */
  datatype FragmentStackItem = FragmentStackItem(className: string, arguments: Option<Bundle>, savedState: Option<SavedState>)

  /** The presence byte written before an optional payload. */
  function PresenceFlag(present: bool): (b: Int8)
    ensures (b != 0) == present
  {
    if present then 1 else 0
  }

  /** The values `writeToParcel` appends for an item. */
  function Encode(item: FragmentStackItem): (r: seq<Value>)
    // a name and two flags, plus one value per present payload
    ensures |r| == 3 + (if item.arguments.Some? then 1 else 0) + (if item.savedState.Some? then 1 else 0)
    ensures r[0] == StringValue(Some(item.className))
  {
    [StringValue(Some(item.className)), ByteValue(PresenceFlag(item.arguments.Some?))]
    + (if item.arguments.Some? then [BundleValue(item.arguments.value)] else [])
    + [ByteValue(PresenceFlag(item.savedState.Some?))]
    + (if item.savedState.Some? then [SavedStateValue(item.savedState.value)] else [])
  }

  /*
   * Reading one value at a position. A read at the end of the data yields
   * null or zero without moving, as Android's parcel does; a value of another
   * kind is read as null or zero and skipped. A `Bundle` or `SavedState`
   * creator finding no payload of its kind fails.
   */

  function ReadStringAt(data: seq<Value>, pos: nat): (Option<string>, nat) {
    if pos >= |data| then (None, pos)
    else if data[pos].StringValue? then (data[pos].s, pos + 1)
    else (None, pos + 1)
  }

  function ReadByteAt(data: seq<Value>, pos: nat): (Int8, nat) {
    if pos >= |data| then (0, pos)
    else if data[pos].ByteValue? then (data[pos].b, pos + 1)
    else (0, pos + 1)
  }

  function ReadBundleAt(data: seq<Value>, pos: nat): Option<(Bundle, nat)> {
    if pos < |data| && data[pos].BundleValue? then Some((data[pos].bundle, pos + 1)) else None
  }

  function ReadSavedStateAt(data: seq<Value>, pos: nat): Option<(SavedState, nat)> {
    if pos < |data| && data[pos].SavedStateValue? then Some((data[pos].state, pos + 1)) else None
  }

  /**
   * What `CREATOR` reads from a position: `None` when the class name is null
   * (the `!!` throws) or a payload announced by a nonzero byte is missing.
   */
  function Decode(data: seq<Value>, pos: nat): (r: Option<(FragmentStackItem, nat)>)
    // an item is read only from a non-null class name at the position, and
    // reading moves forward by at most five values, never past the end
    ensures r.Some? ==> pos < |data| && data[pos] == StringValue(Some(r.value.0.className))
    ensures r.Some? ==> pos < r.value.1 <= |data| && r.value.1 <= pos + 5
    // a payload is read only when its presence byte is nonzero
    ensures r.Some? && r.value.0.arguments.Some? ==> ReadByteAt(data, pos + 1).0 != 0
    ensures r.Some? && r.value.0.savedState.Some? ==>
      ReadByteAt(data, if r.value.0.arguments.Some? then pos + 3 else pos + 2).0 != 0
  {
    var (className, p1) := ReadStringAt(data, pos);
    if className.None? then None
    else
      var (argumentsFlag, p2) := ReadByteAt(data, p1);
      var arguments := if argumentsFlag == 0 then Some((None, p2)) else
        match ReadBundleAt(data, p2)
        case None => None
        case Some((bundle, p)) => Some((Some(bundle), p));
      if arguments.None? then None
      else
        var (stateFlag, p3) := ReadByteAt(data, arguments.value.1);
        var savedState := if stateFlag == 0 then Some((None, p3)) else
          match ReadSavedStateAt(data, p3)
          case None => None
          case Some((state, p)) => Some((Some(state), p));
        if savedState.None? then None
        else Some((FragmentStackItem(className.value, arguments.value.0, savedState.value.0), savedState.value.1))
  }

  /**
   * Write-then-read: whatever precedes or follows it, an encoded item reads
   * back as the same item, and the reader stops right after it.
   */
  lemma DecodeEncode(item: FragmentStackItem, before: seq<Value>, after: seq<Value>)
    ensures Decode(before + Encode(item) + after, |before|) == Some((item, |before| + |Encode(item)|))
  {
  }


  /** The presence bytes of an encoded item are 1 or 0 as each payload is present or absent. */
  lemma EncodedFlags(item: FragmentStackItem)
    ensures Encode(item)[1] == ByteValue(if item.arguments.Some? then 1 else 0)
    ensures Encode(item)[if item.arguments.Some? then 3 else 2] == ByteValue(if item.savedState.Some? then 1 else 0)
  {
  }

  /** An Android `Parcel`: the values written so far and the read/write position. */
  class Parcel {
    var data: seq<Value>
    var position: nat

    constructor ()
      ensures data == [] && position == 0
    {
      data := [];
      position := 0;
    }

    /** Writing appends at the end and leaves the position there. */
    method Write(v: Value)
      modifies this
      ensures data == old(data) + [v] && position == |data|
    {
      data := data + [v];
      position := |data|;
    }

    /** `setDataPosition`. */
    method SetDataPosition(pos: nat)
      modifies this
      ensures data == old(data) && position == pos
    {
      position := pos;
    }

    method ReadString() returns (s: Option<string>)
      modifies this
      ensures data == old(data) && (s, position) == ReadStringAt(data, old(position))
    {
      s, position := ReadStringAt(data, position).0, ReadStringAt(data, position).1;
    }

    method ReadByte() returns (b: Int8)
      modifies this
      ensures data == old(data) && (b, position) == ReadByteAt(data, old(position))
    {
      b, position := ReadByteAt(data, position).0, ReadByteAt(data, position).1;
    }

    /** `Bundle.CREATOR.createFromParcel`; `None` stands for the exception it raises. */
    method ReadBundle() returns (bundle: Option<Bundle>)
      modifies this
      ensures data == old(data)
      ensures bundle.Some? <==> ReadBundleAt(data, old(position)).Some?
      ensures bundle.Some? ==> (bundle.value, position) == ReadBundleAt(data, old(position)).value
    {
      match ReadBundleAt(data, position)
      case None => bundle := None;
      case Some((b, p)) => bundle, position := Some(b), p;
    }

    /** `Fragment.SavedState.CREATOR.createFromParcel`; `None` stands for the exception it raises. */
    method ReadSavedState() returns (state: Option<SavedState>)
      modifies this
      ensures data == old(data)
      ensures state.Some? <==> ReadSavedStateAt(data, old(position)).Some?
      ensures state.Some? ==> (state.value, position) == ReadSavedStateAt(data, old(position)).value
    {
      match ReadSavedStateAt(data, position)
      case None => state := None;
      case Some((s, p)) => state, position := Some(s), p;
    }
  }

  /** `FragmentStackItem.writeToParcel`. */
  method WriteToParcel(item: FragmentStackItem, dest: Parcel)
    modifies dest
    ensures dest.data == old(dest.data) + Encode(item) && dest.position == |dest.data|
  {
    dest.Write(StringValue(Some(item.className)));
    dest.Write(ByteValue(PresenceFlag(item.arguments.Some?)));
    if item.arguments.Some? {
      dest.Write(BundleValue(item.arguments.value));
    }
    dest.Write(ByteValue(PresenceFlag(item.savedState.Some?)));
    if item.savedState.Some? {
      dest.Write(SavedStateValue(item.savedState.value));
    }
  }

  /**
   * `FragmentStackItem.CREATOR`: read the class name, then each payload whose
   * presence byte is nonzero. `None` stands for the exception thrown partway.
   */
  method CreateFromParcel(src: Parcel) returns (item: Option<FragmentStackItem>)
    modifies src
    ensures src.data == old(src.data)
    ensures item.Some? <==> Decode(src.data, old(src.position)).Some?
    ensures item.Some? ==> (item.value, src.position) == Decode(src.data, old(src.position)).value
  {
    var className := src.ReadString();
    if className.None? {
      return None;
    }
    var arguments: Option<Bundle> := None;
    var argumentsFlag := src.ReadByte();
    if argumentsFlag != 0 {
      arguments := src.ReadBundle();
      if arguments.None? {
        return None;
      }
    }
    var savedState: Option<SavedState> := None;
    var stateFlag := src.ReadByte();
    if stateFlag != 0 {
      savedState := src.ReadSavedState();
      if savedState.None? {
        return None;
      }
    }
    item := Some(FragmentStackItem(className.value, arguments, savedState));
  }

  /** Writing an item into a fresh parcel and reading it back from the start restores the item. */
  method ParcelRoundTrip(item: FragmentStackItem) returns (restored: Option<FragmentStackItem>)
    ensures restored == Some(item)
  {
    var parcel := new Parcel();
    WriteToParcel(item, parcel);
    parcel.SetDataPosition(0);
    DecodeEncode(item, [], []);
    assert parcel.data == [] + Encode(item) + [];
    restored := CreateFromParcel(parcel);
  }
}
