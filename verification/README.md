# SatDump: CCSDS primary header codec and GVAR product helpers, in Dafny

This project models two parts of SatDump and proves properties of them.

**The CCSDS Space Packet primary header** (`src-core/common/ccsds/ccsds.cpp`).
The header is six octets, laid out as in section 4.1.3 of CCSDS 133.0-B-2:

- octet 0: a 3-bit version, a 1-bit type, a 1-bit secondary-header flag and the top 3 bits of the 11-bit APID;
- octet 1: the low 8 bits of the APID;
- octet 2: 2-bit sequence flags and the top 6 bits of the 14-bit sequence count;
- octet 3: the low 8 bits of the sequence count;
- octets 4 and 5: a 16-bit packet data length, high octet first.

The model covers three operations:

- decoding from a buffer (`Ccsds.Decode`, `Ccsds.ParseHeader`);
- re-encoding the raw octets from the fields (`Ccsds.EncodeHeader`);
- re-encoding a packet, which first sets the length field to the payload size minus one (`Ccsds.EncodePacket`).

The shifts, masks and `|` of the C++ are given meaning in module `Bits` (`>>`, `<<`, `&`, `|` on naturals). `Ccsds.DecodeMatchesSource` and `Ccsds.EncodeMatchesSource` show that the codec computes exactly those operator expressions.

**The pure helpers of the GVAR extended plugin** (`plugins/gvar_extended/main.cpp`):

- the product file-name prefix (`GvarNames`);
- the NORAD catalogue lookup (`GvarNames`);
- the square-window average used for temperature readings (`GvarImage`);
- the look-up index and the 8-bit preview sample derived from 16-bit samples (`GvarImage`);
- the fixed-size crops of the IR, visible and false-colour images (`GvarCrop`);
- the dispatch from a configured channel string to the image it crops (`GvarCrop`);
- which configured crops are produced (`GvarCrop`).

Supporting modules:

- `Decimal` models `std::to_string` of an `int` and reads it back.
- `Bits` holds the C operator definitions.
- `Options` holds the optional value returned by lookups and parsers.

Integers are unbounded in Dafny. Where C storage types matter, the wrap-around is written out explicitly:

- `ToU8` and `ToU16` for `uint8_t` and `uint16_t` stores;
- `SizeMinusOne` for `size_t` subtraction;
- `CDiv` and `CMod` for C's truncating `/` and `%`.

## Model

| member | source | states |
|---|---|---|
| Ccsds.Decode | src-core/common/ccsds/ccsds.cpp:12-22 | the raw octets are the first six of the buffer, kept as they are; every decoded field fits its protocol width |
| Ccsds.DecodeMatchesSource | src-core/common/ccsds/ccsds.cpp:15-21 | each field equals the C++ shift/remainder/`|` expression over the raw octets, stored in its C type |
| Ccsds.ParseHeader | src-core/common/ccsds/ccsds.cpp:41-44 | parsing keeps the first six octets and ignores whatever follows them in the buffer |
| Ccsds.EncodeHeader | src-core/common/ccsds/ccsds.cpp:24-32 | re-encoding changes only the raw octets and always writes six of them |
| Ccsds.EncodeMatchesSource | src-core/common/ccsds/ccsds.cpp:26-31 | each written octet equals the C++ mask/shift/`|` expression over the fields, stored as `uint8_t` |
| Ccsds.LengthBigEndian | src-core/common/ccsds/ccsds.cpp:30-31 | the length is written big-endian: octet 4 is its high byte and octet 5 its low byte |
| Ccsds.Masked | src-core/common/ccsds/ccsds.cpp:26-28 | cutting fields to their protocol widths yields an in-range header; each field already within its width keeps its value, the raw octets, flags and length are untouched, and the header is unchanged exactly when every field is in range |
| Ccsds.DecodeEncode | src-core/common/ccsds/ccsds.cpp:12-32 | any six octets decode to fields that re-encode to the same six octets |
| Ccsds.EncodeDecode | src-core/common/ccsds/ccsds.cpp:12-32 | the octets the encoder writes decode to the fields cut to their protocol widths, so in-range fields come back unchanged |
| Ccsds.EncodeUsesLowBits | src-core/common/ccsds/ccsds.cpp:26-28 | the octets depend only on each field's low bits; out-of-range bits never spill into a neighbouring field |
| Ccsds.SizeMinusOne | src-core/common/ccsds/ccsds.cpp:36 | `size() - 1` in `size_t` stays a `size_t` and agrees with size minus one modulo 2^16 |
| Ccsds.EncodePacket | src-core/common/ccsds/ccsds.cpp:34-38 | the payload is untouched; the length field is payload size minus one for 1 to 65536 octets and 65535 for an empty payload; the header is re-encoded with that length |
| Ccsds.EncodePacketDecode | src-core/common/ccsds/ccsds.cpp:34-38 | for an in-range header and 1 to 65536 payload octets, decoding the encoded octets gives the header's fields with length equal to payload size minus one |
| Bits.AndLowMask | src-core/common/ccsds/ccsds.cpp:26-31 | `x & (2^k - 1)` is `x mod 2^k` |
| Bits.OrDisjoint | src-core/common/ccsds/ccsds.cpp:26-28 | `|` of a value shifted past another value's bits is their sum |
| Decimal.IntToString | plugins/gvar_extended/main.cpp:162 | the text of an `int` is non-empty, starts with '-' exactly for negative values, has no leading zero ("0" only for zero, no '0' after the sign), and contains no '_' |
| Decimal.IntToStringRoundTrip | plugins/gvar_extended/main.cpp:162 | reading back the text of any `int` gives that `int` |
| Decimal.IntToStringInjective | plugins/gvar_extended/main.cpp:162 | two `int`s have the same text exactly when they are equal |
| Decimal.ParseIntCanonical | plugins/gvar_extended/main.cpp:162 | reading accepts only the exact text `std::to_string` writes: no leading zero, no "-0", so a read-back number is written back to the same text |
| GvarNames.SatelliteTextExact | plugins/gvar_extended/main.cpp:162 | a file name reads back only if its satellite-number text is exactly `std::to_string` of the number it yields |
| GvarNames.Pad2TwoDigits | plugins/gvar_extended/main.cpp:164-168 | each time part from 0 to 99 is written as exactly two digits denoting it, with a leading '0' exactly when it is at most 9 |
| GvarNames.TimestampRoundTrip | plugins/gvar_extended/main.cpp:163-168 | a time with a four-digit year is written in 16 characters `yyyyMMddTHHmmssZ` that read back to the same time |
| GvarNames.GvarFilename | plugins/gvar_extended/main.cpp:160-170 | the file-name prefix starts with 'G'; for a time with a four-digit year and other parts 0..99 it reads back to its satellite number, channel and time |
| GvarNames.FilenameInjective | plugins/gvar_extended/main.cpp:160-170 | for times with a four-digit year and other parts 0..99, two prefixes are equal exactly when satellite number, channel and time are |
| GvarNames.NoradId | plugins/gvar_extended/main.cpp:489-499 | satellites 13, 14 and 15 get a nonzero number and every other satellite gets 0; a nonzero number maps back to its satellite in the inverse table (29155, 35491, 36411) |
| GvarNames.NoradRoundTrip | plugins/gvar_extended/main.cpp:489-499 | the lookup and the inverse table agree in both directions |
| GvarImage.WindowCount | plugins/gvar_extended/main.cpp:426 | the window `(2r + 1)^2` always holds at least one sample, so the division in `getAVG` is defined for every radius |
| GvarImage.GetAvg | plugins/gvar_extended/main.cpp:423-431 | the result is the floor of the window's mean: `avg * n <= sum < (avg + 1) * n` |
| GvarImage.WindowSumBounds | plugins/gvar_extended/main.cpp:426-429 | a sum of `n` window samples lies between `n` times their lower and `n` times their upper bound |
| GvarImage.FloorMean | plugins/gvar_extended/main.cpp:430 | integer division of a sum of `n` samples is its floor mean and never exceeds the greatest sample bound (so it fits an `unsigned short`) |
| GvarImage.AverageWithinSamples | plugins/gvar_extended/main.cpp:423-431 | the average lies between the least and the greatest sample read |
| GvarImage.WindowIsSquare | plugins/gvar_extended/main.cpp:426-429 | for `r >= 0`, every cell of the square around `(x, y)` is read, by the sample `(dy + r) * (2r + 1) + (dx + r)` |
| GvarImage.WindowInSquare | plugins/gvar_extended/main.cpp:428 | for `r >= 0`, every sample's row and column offsets lie within the square |
| GvarImage.NegativeRadius | plugins/gvar_extended/main.cpp:426-428 | with `r == -1` the one sample read is the pixel diagonally below and right of `(x, y)` |
| GvarImage.LutIndex | plugins/gvar_extended/main.cpp:295 | `avg >> 6` selects one of the 1024 table entries, the one whose 64-wide bucket holds `avg` |
| GvarImage.TopByte | plugins/gvar_extended/main.cpp:216 | `p >> 8` is below 256 and is the 256-wide bucket holding `p` |
| GvarImage.ToEightBit | plugins/gvar_extended/main.cpp:214-217 | the 8-bit preview channel holds, for each of its pixels, the top byte of the matching 16-bit sample |
| GvarImage.TopByteMonotone | plugins/gvar_extended/main.cpp:216 | reducing to the top byte keeps the order of samples |
| GvarCrop.CropIR | plugins/gvar_extended/main.cpp:433-450 | images 5206 or 5209 columns wide are placed, at offset 0 or -463, on a one-channel canvas 4749 wide and as high as the input; any other image is returned as it is |
| GvarCrop.IrCropColumns | plugins/gvar_extended/main.cpp:436-443 | 5206 columns: canvas column `x` shows input column `x`; 5209 columns: it shows column `x + 463`, and the last three canvas columns show no input |
| GvarCrop.CropVIS | plugins/gvar_extended/main.cpp:452-469 | images 20824 or 20836 columns wide are placed, at offset 0 or -1852, on a one-channel canvas 18990 wide and as high as the input; any other image is returned as it is |
| GvarCrop.CropFC | plugins/gvar_extended/main.cpp:470-487 | as the visible crop (same widths, offsets and canvas width), on a three-channel canvas |
| GvarCrop.VisCropColumns | plugins/gvar_extended/main.cpp:455-462 | 20824 columns: canvas column `x` shows input column `x`; 20836 columns: it shows column `x + 1852`, and the last six canvas columns show no input; the same holds for false colour (lines 473-480) |
| GvarCrop.SourceColumnInjective | plugins/gvar_extended/main.cpp:433-487 | a crop never shows one input column at two canvas columns |
| GvarCrop.FullDiskIffCropped | plugins/gvar_extended/main.cpp:262 | the temperature step runs for an image-1 width exactly when the IR crop places that image on its canvas |
| GvarCrop.SelectChannel | plugins/gvar_extended/main.cpp:190-195 | a selected image is cropped as visible exactly when it is image 5 |
| GvarCrop.SelectChannelInverse | plugins/gvar_extended/main.cpp:344-349 | a channel string selects an image exactly when it is that image's name: "1" for image 5, "2" to "5" for images 1 to 4 |
| GvarCrop.SelectChannelSkips | plugins/gvar_extended/main.cpp:190-195 | exactly the strings other than "1" to "5" are skipped |
| GvarCrop.CropForChannel | plugins/gvar_extended/main.cpp:344-349 | a crop is produced exactly when the channel is not skipped |
| GvarCrop.CropForChannelImages | plugins/gvar_extended/main.cpp:190-195 | channel "1" crops image 5 as visible, and "2" to "5" crop images 1 to 4 as IR |
| GvarCrop.CropLabelMatchesKind | plugins/gvar_extended/main.cpp:360 | for every crop that is produced, the log says "VIS" exactly when the visible crop was applied |
| GvarCrop.SelectIndices | plugins/gvar_extended/main.cpp:339-349 | the positions returned are exactly those whose string is accepted, in increasing order |
| GvarCrop.MappedCrops | plugins/gvar_extended/main.cpp:339-349 | the mapped crops produced are exactly those whose channel selects an image, in configuration order |
| GvarCrop.FalseColourCrops | plugins/gvar_extended/main.cpp:369-373 | false-colour crops are produced for satellite 13 only, exactly for the crops whose channel is "FC", in configuration order |

## Left out

- `ccsds.h` is not part of this model. The field storage types are taken from the protocol widths, rounded up to C types: `uint8_t` for version and sequence flags, `bool` for type and secondary-header flag, and `uint16_t` for APID, sequence count and length.
- Decoding a buffer shorter than six octets: the C++ reads past the buffer, so `Decode` requires six octets.
- Decoding does not reject a header whose length field disagrees with the packet's actual data length. The code never checks this, and the model follows the code.
- The default `CCSDSHeader()` constructor and the `memcpy` into the header's own array: the model keeps the header as a value.
- Payloads of 2^64 octets or more, which `size_t` cannot count.
- Ccsds.EncodePacket: for payloads above 65536 octets the length field is stated only modulo 2^16, as the C++ stores it.
- GvarImage.GetAvg: the sum is unbounded, so the `uint64_t` overflow of a window above 2^48 samples is not modelled.
- GvarImage.GetAvg: `std::pow` is computed in `double` and the division converts through `double`. The model uses exact integer arithmetic, which agrees for every window the `int` loop counter can cover.
- GvarImage.GetAvg: the window's indices must lie inside the image. The C++ reads out of bounds otherwise.
- GvarImage.ToEightBit: the 8-bit image size is a parameter. The loop must find that many samples in the resized image.
- The image library is outside the model: `draw_image`, `resize`, `crop`, `simple_despeckle`, `to8bits`, `save_png`, and the pixel contents of a crop's canvas. A crop is described by its canvas size, channel count and the input column shown at each canvas column.
- The GVAR JSON configuration, the composites' layout, the text, scale bar and map overlays, the GEO projection and TLE handling, the LUT file parsing, the Kelvin/Celsius formatting of temperatures, and the percentage-to-pixel crop arithmetic in floating point.
- The logger messages, except the "VIS"/"IR" label choice, and the warnings printed for an unexpected crop width.
- The TCP publisher, the Coriolis decoder, the carrier PLL and the audio sink that share the repository.
- GvarCrop.IrCropColumns, GvarCrop.VisCropColumns: the column each canvas column shows assumes that `draw_image` copies the input at the given offset and clips it at both canvas edges without wrapping. The image library's `draw_image` is not part of this model, so this behaviour is assumed, not derived.
- GvarCrop.CropFC: the source crops an 8-bit image; the model takes the same 16-bit `Image` as the other crops, since the crop never reads sample values.
- GvarNames.GvarFilename: reading back is proved only for times whose year has four digits and whose other parts lie between 0 and 99, as for the timestamp.
- GvarNames.FilenameInjective: proved only for times with a four-digit year and other parts between 0 and 99; outside that range two times could share a timestamp text.
- GvarNames.TimestampRoundTrip: reading back is proved only for times whose year has four digits and whose other parts lie between 0 and 99. Other times are written by the same function but may not be read back unambiguously.
