/**
  How the GVAR plugin picks and crops the full-disk channel images.

  The IR channels (images 1 to 4) and the visible channel (image 5) arrive in
  one of two scan widths. `cropIR`, `cropVIS` and `cropFC` place an image of a
  known width on a canvas of fixed width (4749 IR columns, 18990 visible
  columns) at a horizontal offset chosen by that width, and return any other
  image unchanged. A crop is described by its canvas and offset; the image
  library's pixel copy (`draw_image`) is not part of this model, so what the
  crop shows is stated column by column: which input column appears at each
  canvas column, if any.

  Preview and mapped crops name their channel by a string: "1" is the visible
  image, "2" to "5" are IR images 1 to 4, and any other string is skipped.
 */
module GvarCrop {
  import opened GvarImage
  import opened Options

  /** What a crop function decides from the input width. */
  datatype Plan = Keep | Shift(offset: int)

  /** The result of a crop: the input as it was, or a canvas showing it shifted by `offsetX`. */
  datatype Cropped = Unchanged(image: Image) | Placed(width: nat, height: nat, channels: nat, offsetX: int, source: Image)

  const IrCanvasWidth: nat := 4749
  const VisCanvasWidth: nat := 18990

  /** `cropIR`'s choice: 5206 columns are placed as they are, 5209 columns shifted 463 to the left. */
  function IrPlan(width: nat): Plan
  {
    if width == 5206 then Shift(0) else if width == 5209 then Shift(-463) else Keep
  }

  /** `cropVIS` and `cropFC`'s choice: 20824 columns as they are, 20836 columns shifted 1852 to the left. */
  function VisPlan(width: nat): Plan
  {
    if width == 20824 then Shift(0) else if width == 20836 then Shift(-1852) else Keep
  }

  /** A canvas of the given width, as high as the input, with the input drawn at the plan's offset. */
  function Apply(plan: Plan, canvasWidth: nat, channels: nat, input: Image): (c: Cropped)
    ensures plan.Keep? <==> c == Unchanged(input)
    ensures c.Placed? ==> c.width == canvasWidth && c.height == input.height && c.channels == channels
  {
    match plan
    case Keep => Unchanged(input)
    case Shift(offset) => Placed(canvasWidth, input.height, channels, offset, input)
  }

  /** `cropIR`. */
  function CropIR(input: Image): (c: Cropped)
    ensures c.Unchanged? <==> input.width != 5206 && input.width != 5209
    ensures c.Unchanged? ==> c.image == input
    ensures c.Placed? ==> c.source == input && c.offsetX == (if input.width == 5206 then 0 else -463)
    ensures c.Placed? ==> c.width == IrCanvasWidth && c.height == input.height && c.channels == 1
  {
    Apply(IrPlan(input.width), IrCanvasWidth, 1, input)
  }

  /** `cropVIS`. */
  function CropVIS(input: Image): (c: Cropped)
    ensures c.Unchanged? <==> input.width != 20824 && input.width != 20836
    ensures c.Unchanged? ==> c.image == input
    ensures c.Placed? ==> c.source == input && c.offsetX == (if input.width == 20824 then 0 else -1852)
    ensures c.Placed? ==> c.width == VisCanvasWidth && c.height == input.height && c.channels == 1
  {
    Apply(VisPlan(input.width), VisCanvasWidth, 1, input)
  }

  /**
    `cropFC`: as `cropVIS`, on a three-channel canvas. The source works on an
    8-bit image; the crop never looks at sample values, so the model takes the
    same `Image` as the other crops, whose samples may be up to 16 bits wide.
   */
  function CropFC(input: Image): (c: Cropped)
    ensures c.Unchanged? <==> input.width != 20824 && input.width != 20836
    ensures c.Unchanged? ==> c.image == input
    ensures c.Placed? ==> c.source == input && c.offsetX == (if input.width == 20824 then 0 else -1852)
    ensures c.Placed? ==> c.width == VisCanvasWidth && c.height == input.height && c.channels == 3
  {
    Apply(VisPlan(input.width), VisCanvasWidth, 3, input)
  }

  /** The input column shown at column `x` of a crop's result, or `None` where the canvas is not drawn on. */
  function SourceColumn(c: Cropped, x: int): Option<int>
  {
    match c
    case Unchanged(image) => if 0 <= x < image.width then Some(x) else None
    case Placed(width, _, _, offset, source) =>
      if 0 <= x < width && 0 <= x - offset < source.width then Some(x - offset) else None
  }

  /**
    An IR image 5206 columns wide keeps its first 4749 columns. One 5209 columns
    wide loses its first 463 columns and fills the canvas up to column 4745;
    the last three canvas columns show no input.
   */
  lemma IrCropColumns(input: Image, x: int)
    requires 0 <= x < IrCanvasWidth
    ensures input.width == 5206 ==> SourceColumn(CropIR(input), x) == Some(x)
    ensures input.width == 5209 && x < 4746 ==> SourceColumn(CropIR(input), x) == Some(x + 463)
    ensures input.width == 5209 && x >= 4746 ==> SourceColumn(CropIR(input), x) == None
  {
  }

  /**
    A visible or false-colour image 20824 columns wide keeps its first 18990
    columns. One 20836 columns wide loses its first 1852 columns and fills the
    canvas up to column 18983; the last six canvas columns show no input.
   */
  lemma VisCropColumns(input: Image, x: int)
    requires 0 <= x < VisCanvasWidth
    ensures input.width == 20824 ==>
      SourceColumn(CropVIS(input), x) == Some(x) && SourceColumn(CropFC(input), x) == Some(x)
    ensures input.width == 20836 && x < 18984 ==>
      SourceColumn(CropVIS(input), x) == Some(x + 1852) && SourceColumn(CropFC(input), x) == Some(x + 1852)
    ensures input.width == 20836 && x >= 18984 ==>
      SourceColumn(CropVIS(input), x) == None && SourceColumn(CropFC(input), x) == None
  {
  }

  /** Cropping never mixes columns: each result column shows at most one input column, and distinct result columns distinct ones. */
  lemma SourceColumnInjective(c: Cropped, x1: int, x2: int)
    requires SourceColumn(c, x1).Some? && SourceColumn(c, x1) == SourceColumn(c, x2)
    ensures x1 == x2
  {
  }

  /** The widths of image 1 for which the temperature measurement runs. */
  predicate IsFullDisk(image1Width: nat)
  {
    image1Width == 5206 || image1Width == 5209
  }

  /** The temperature measurement runs exactly for the widths the IR crop places on its canvas. */
  lemma FullDiskIffCropped(input: Image)
    ensures IsFullDisk(input.width) <==> CropIR(input).Placed?
  {
  }

  // ----- Channel dispatch -----

  /** The five channel images of a GVAR frame. */
  datatype Slot = Image1 | Image2 | Image3 | Image4 | Image5

  datatype Kind = IR | VIS

  /** What a configured channel string selects. */
  datatype Selection = Skip | Use(slot: Slot, kind: Kind)

  /** The dispatch on a crop's channel string. */
  function SelectChannel(channel: string): (s: Selection)
    ensures s.Use? ==> (s.kind == VIS <==> s.slot == Image5)
  {
    if channel == "1" then Use(Image5, VIS)
    else if channel == "2" then Use(Image1, IR)
    else if channel == "3" then Use(Image2, IR)
    else if channel == "4" then Use(Image3, IR)
    else if channel == "5" then Use(Image4, IR)
    else Skip
  }

  /** The channel string of each image: image 5 is channel 1, images 1 to 4 are channels 2 to 5. */
  function ChannelName(slot: Slot): string
  {
    match slot
    case Image1 => "2"
    case Image2 => "3"
    case Image3 => "4"
    case Image4 => "5"
    case Image5 => "1"
  }

  /** Every image is selected by exactly one channel string, and every selecting string names its image. */
  lemma SelectChannelInverse(channel: string, slot: Slot)
    ensures SelectChannel(channel).Use? && SelectChannel(channel).slot == slot <==> channel == ChannelName(slot)
  {
  }

  /** Exactly the strings "1" to "5" select an image; every other string is skipped. */
  lemma SelectChannelSkips(channel: string)
    ensures SelectChannel(channel) == Skip <==> channel !in {"1", "2", "3", "4", "5"}
  {
  }

  /** The log label of a mapped crop: "VIS" for channel "1", otherwise "IR". */
  function CropLabel(channel: string): string
  {
    if channel == "1" then "VIS" else "IR"
  }

  /** For every channel that is not skipped, the label agrees with the crop applied. */
  lemma CropLabelMatchesKind(channel: string)
    requires SelectChannel(channel).Use?
    ensures CropLabel(channel) == "VIS" <==> SelectChannel(channel).kind == VIS
  {
  }

  datatype Frame = Frame(image1: Image, image2: Image, image3: Image, image4: Image, image5: Image)

  function SlotImage(f: Frame, slot: Slot): Image
  {
    match slot
    case Image1 => f.image1
    case Image2 => f.image2
    case Image3 => f.image3
    case Image4 => f.image4
    case Image5 => f.image5
  }

  /** The cropped image a preview or mapped crop starts from, or `None` when its channel is skipped. */
  function CropForChannel(f: Frame, channel: string): (r: Option<Cropped>)
    ensures r.None? <==> SelectChannel(channel) == Skip
  {
    match SelectChannel(channel)
    case Skip => None
    case Use(slot, IR) => Some(CropIR(SlotImage(f, slot)))
    case Use(slot, VIS) => Some(CropVIS(SlotImage(f, slot)))
  }

  /** Channel "1" crops image 5 as visible; "2" to "5" crop images 1 to 4 as IR. */
  lemma CropForChannelImages(f: Frame)
    ensures CropForChannel(f, "1") == Some(CropVIS(f.image5))
    ensures CropForChannel(f, "2") == Some(CropIR(f.image1))
    ensures CropForChannel(f, "3") == Some(CropIR(f.image2))
    ensures CropForChannel(f, "4") == Some(CropIR(f.image3))
    ensures CropForChannel(f, "5") == Some(CropIR(f.image4))
  {
  }

  // ----- Which configured crops are produced -----

  /** The positions, in order, of the strings that `keep` accepts. */
  method SelectIndices(channels: seq<string>, keep: string -> bool) returns (js: seq<nat>)
    ensures forall j :: j in js <==> 0 <= j < |channels| && keep(channels[j])
    ensures forall a, b :: 0 <= a < b < |js| ==> js[a] < js[b]
  {
    js := [];
    var k := 0;
    while k < |channels|
      invariant k <= |channels|
      invariant forall j :: j in js <==> 0 <= j < k && keep(channels[j])
      invariant forall a, b :: 0 <= a < b < |js| ==> js[a] < js[b]
      invariant forall a :: 0 <= a < |js| ==> js[a] < k
    {
      if keep(channels[k]) {
        js := js + [k];
      }
      k := k + 1;
    }
  }

  /** The mapped crops that are produced: those whose channel selects an image, in configuration order. */
  method MappedCrops(channels: seq<string>) returns (js: seq<nat>)
    ensures forall j :: j in js <==> 0 <= j < |channels| && SelectChannel(channels[j]) != Skip
    ensures forall a, b :: 0 <= a < b < |js| ==> js[a] < js[b]
  {
    js := SelectIndices(channels, c => SelectChannel(c) != Skip);
  }

  /** The false-colour crops that are produced: those with channel "FC", and only for satellite 13. */
  method FalseColourCrops(satNumber: int, channels: seq<string>) returns (js: seq<nat>)
    ensures forall j :: j in js <==> satNumber == 13 && 0 <= j < |channels| && channels[j] == "FC"
    ensures forall a, b :: 0 <= a < b < |js| ==> js[a] < js[b]
  {
    if satNumber == 13 {
      js := SelectIndices(channels, c => c == "FC");
    } else {
      js := [];
    }
  }
}
