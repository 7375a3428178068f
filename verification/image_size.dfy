/** The public entry point of the image-size library (lib/index.ts): the
    dispatcher that detects an image's type from its bytes, consults the
    disabled-type configuration, and hands the bytes to the handler
    registered for that type.

    The signature detector and the per-format handlers live in files that
    are not part of this model; they are parameters here, so everything
    proved below holds for every detector and every handler table. */
module ImageSize {
  import opened Wrappers

  newtype byte = x: int | 0 <= x < 0x100

  /** An image type name such as "png" or "jpg": the keys of the handler
      table, which are JavaScript strings. */
  type ImageType = string

  /** One frame of a multi-image container. */
  datatype Size = Size(width: int, height: int, orientation: Option<int>, imageType: Option<ImageType>)

  /** What a handler computes and what `lookup` returns: the size fields,
      the optional type tag (`type` in the source) and the optional frames. */
  datatype SizeResult = SizeResult(
    width: int,
    height: int,
    orientation: Option<int>,
    imageType: Option<ImageType>,
    images: Option<seq<Size>>)

  /** The two `TypeError`s that `lookup` throws (unsupported and disabled
      type), and whatever a handler throws, which `lookup` lets pass
      unchanged and which need not be a `TypeError`. */
  datatype LookupError =
    | Unsupported(detected: Option<ImageType>, filepath: Option<string>)
    | Disabled(imageType: ImageType)
    | HandlerError(message: string)

  /** The signature sniffer: a type name, or `undefined` for unknown bytes. */
  type Detector = seq<byte> -> Option<ImageType>

  /** A format handler's `calculate`: a size, `undefined` (None), or a throw. */
  datatype Handler = Handler(calculate: (seq<byte>, Option<string>) -> Result<Option<SizeResult>, string>)

  /** The `typeHandlers` object: its keys in their enumeration order, each
      with its handler. */
  type HandlerTable = seq<(ImageType, Handler)>

  /** JavaScript's `Array.prototype.indexOf` for values compared by value:
      the first position of `x` in `s`, or -1 when `x` does not occur. */
  function IndexOf<T(==)>(s: seq<T>, x: T): (r: int)
    ensures -1 <= r < |s|
    ensures r == -1 <==> x !in s
    ensures 0 <= r ==> s[r] == x && forall j :: 0 <= j < r ==> s[j] != x
    decreases |s|
  {
    if |s| == 0 then -1
    else if s[0] == x then 0
    else
      var k := IndexOf(s[1..], x);
      if k == -1 then -1 else k + 1
  }

  /** `Object.keys(typeHandlers)`: the registered type names, in table order. */
  function Types(table: HandlerTable): (r: seq<ImageType>)
    ensures |r| == |table|
    ensures forall i :: 0 <= i < |r| ==> r[i] == table[i].0
  {
    if |table| == 0 then [] else [table[0].0] + Types(table[1..])
  }

  /** The key names of a JavaScript object are distinct. */
  predicate UniqueKeys(table: HandlerTable)
  {
    forall i, j :: 0 <= i < j < |table| ==> table[i].0 != table[j].0
  }

  /** `type in typeHandlers` together with `typeHandlers[type]`: the position
      of the entry whose key is `t`, or None when `t` is not a key. */
  function HandlerIndex(table: HandlerTable, t: ImageType): (r: Option<nat>)
    ensures r.None? <==> forall i :: 0 <= i < |table| ==> table[i].0 != t
    ensures r.Some? ==> r.value < |table| && table[r.value].0 == t
    ensures r.Some? && UniqueKeys(table) ==>
      forall i :: 0 <= i < |table| && table[i].0 == t ==> i == r.value
  {
    var k := IndexOf(Types(table), t);
    if k == -1 then None else Some(k)
  }

  /** `globalOptions.disabledTypes.indexOf(type) > -1`. */
  predicate IsDisabled(disabledTypes: seq<ImageType>, t: ImageType)
    ensures IsDisabled(disabledTypes, t) <==> t in disabledTypes
  {
    IndexOf(disabledTypes, t) > -1
  }

  /** `a` is `b` with at most its type tag changed. */
  predicate SameExceptType(a: SizeResult, b: SizeResult)
  {
    && a.width == b.width
    && a.height == b.height
    && a.orientation == b.orientation
    && a.images == b.images
  }

  /** `size.type = size.type ?? type`: the handler's own tag wins, the
      detected one fills the gap. */
  function StampType(size: SizeResult, t: ImageType): (r: SizeResult)
    ensures SameExceptType(r, size)
    ensures size.imageType.Some? ==> r.imageType == size.imageType
    ensures size.imageType.None? ==> r.imageType == Some(t)
  {
    size.(imageType := Some(size.imageType.GetOr(t)))
  }

  /** `lookup(input, filepath)` with the configuration it reads passed in:
      detect, refuse an unknown type, refuse a disabled type, require a
      handler, call it, refuse an `undefined` result, fill in the type. */
  function Lookup(detector: Detector, table: HandlerTable, disabledTypes: seq<ImageType>,
                  input: seq<byte>, filepath: Option<string>): (r: Result<SizeResult, LookupError>)
    ensures detector(input).None? ==> r == Failure(Unsupported(None, filepath))
    ensures detector(input).Some? && detector(input).value in disabledTypes ==>
      r == Failure(Disabled(detector(input).value))
    ensures detector(input).Some? && detector(input).value !in disabledTypes &&
            (forall i :: 0 <= i < |table| ==> table[i].0 != detector(input).value) ==>
      r == Failure(Unsupported(detector(input), filepath))
    ensures r.Success? ==> r.value.imageType.Some?
  {
    match detector(input)
    case None => Failure(Unsupported(None, filepath))
    case Some(t) =>
      if IsDisabled(disabledTypes, t) then Failure(Disabled(t))
      else match HandlerIndex(table, t)
        case None => Failure(Unsupported(Some(t), filepath))
        case Some(k) =>
          match table[k].1.calculate(input, filepath)
          case Failure(e) => Failure(HandlerError(e))
          case Success(None) => Failure(Unsupported(Some(t), filepath))
          case Success(Some(size)) => Success(StampType(size, t))
  }

  /** `imageSize(input)`: `lookup` without a file path. */
  function ImageSizeOf(detector: Detector, table: HandlerTable, disabledTypes: seq<ImageType>,
                       input: seq<byte>): (r: Result<SizeResult, LookupError>)
    ensures r.Failure? && r.error.Unsupported? ==> r.error.filepath.None?
  {
    Lookup(detector, table, disabledTypes, input, None)
  }

  /** The module-level `globalOptions`, reduced to the one field `lookup`
      reads. */
  class GlobalOptions {
    var disabledTypes: seq<ImageType>

    /** Nothing is disabled until `disableTypes` is called. */
    constructor()
      ensures disabledTypes == []
    {
      disabledTypes := [];
    }

    /** `disableTypes(types)`: the list is replaced, not extended. */
    method DisableTypes(types: seq<ImageType>)
      modifies this
      ensures disabledTypes == types
    {
      disabledTypes := types;
    }

    /** `lookup` against the current configuration, which it reads and
        leaves as it found it. */
    method LookupConfigured(detector: Detector, table: HandlerTable, input: seq<byte>, filepath: Option<string>)
      returns (r: Result<SizeResult, LookupError>)
      ensures disabledTypes == old(disabledTypes)
      ensures r == Lookup(detector, table, disabledTypes, input, filepath)
    {
      r := Lookup(detector, table, disabledTypes, input, filepath);
    }
  }
}
