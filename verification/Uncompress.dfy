/** One-shot inflation, `mz_uncompress`, and that it undoes `mz_compress2`. */
module Uncompress {
  import opened Bits
  import opened Canonical
  import opened Tokens
  import opened InflateSpec
  import opened InflateReads
  import opened FormatReading
  import opened Liberties
  import opened StreamRoundTrip
  import opened OutputBuffer
  import opened Settings
  import Inflater
  import Compressor
  import Adler32

  // ---------- mz_uncompress

  datatype Code = Ok | DataError | BufError

  /** One call of the inflater, straight into `dest`: a stream is accepted exactly when the code takes it and
      there is room for what it stands for, and that is what is put out. */
  method InflateOnce(dest: array<Byte>, source: seq<Byte>, zlib: bool) returns (code: Code, n: nat)
    modifies dest
    ensures n <= dest.Length && (code == BufError ==> n == dest.Length)
    ensures var p := Port(zlib, Room(false, old(dest[..])));
            var w := StandsFor(p, ByteBits(source));
            && (code == Ok <==> Takes(p, ByteBits(source)) && |w.value.out| <= dest.Length)
            && (code == BufError && w.Got? ==> |w.value.out| > dest.Length)
            && (w.Got? ==> dest[..n] == if |w.value.out| <= dest.Length then w.value.out else w.value.out[..dest.Length])
  {
    hide ByteBits, StandsFor, Held, Adler32.Checksum, Inflater.Inflater.Valid, Inflater.Inflater.Lean;
    WindowLiberty(Port(zlib, Room(false, dest[..])), ByteBits(source));
    var inf := new Inflater.Inflater(source, dest, false, zlib);
    StartSum();
    assert source[0..|source|] == source;
    var status, consumed;
    ghost var written;
    status, consumed, written := inf.Decompress(source, false);
    n := inf.out.o;
    inf.Bounds();
    AtCursor(inf.out);
    ghost var w := inf.goal;
    assert w.Got? && |inf.out.h| == |w.value.out| ==> inf.out.h == w.value.out;
    if status == Inflater.Done {
      code := Ok;
    } else if status == Inflater.HasMoreOutput {
      code := if consumed == |source| then DataError else BufError;
    } else {
      code := DataError;
    }
  }

  /** `mz_uncompress` (with `zlib`), or the same for a raw stream. What is accepted, and with what result, is
      what `InflateOnce` says; for a valid stream that is the data, and nothing else is accepted but with a
      liberty. */
  method Uncompress(dest: array<Byte>, source: seq<Byte>, zlib: bool) returns (code: Code, n: nat)
    modifies dest
    ensures n <= dest.Length && (code == BufError ==> n == dest.Length)
    ensures var p := Port(zlib, Room(false, old(dest[..])));
            var w := StandsFor(p, ByteBits(source));
            && (code == Ok <==> Takes(p, ByteBits(source)) && |w.value.out| <= dest.Length)
            && (code == BufError && w.Got? ==> |w.value.out| > dest.Length)
            && (w.Got? ==> dest[..n] == if |w.value.out| <= dest.Length then w.value.out else w.value.out[..dest.Length])
    ensures var d := Decompress(ByteBits(source), zlib);
            && (d.Some? ==> if |d.value| <= dest.Length then code == Ok && dest[..n] == d.value else code != Ok && dest[..n] == d.value[..dest.Length])
            && (code == Ok ==> (d.Some? <==> StandsFor(Port(zlib, Room(false, old(dest[..]))), ByteBits(source)).value.taken == {}))
  {
    hide ByteBits, StandsFor, Decompress, Adler32.Checksum;
    Exactly(Port(zlib, Room(false, dest[..])), ByteBits(source));
    code, n := InflateOnce(dest, source, zlib);
  }

  lemma StartSum()
    ensures Adler32.Checksum(1, []) == 1
  {
  }

  lemma AtCursor(out: Inflater.Output)
    requires out.Valid() && !out.wraps
    ensures |out.h| == out.o
  {
  }

  /** Compressing and restoring: whenever the compressor is done, the restored data are the input; and it is done
      when it gets the room that `mz_compressBound` says. */
  method SquashRestore(input: array<Byte>, room: nat, opts: Options, platform: Platform, dest: array<Byte>)
    returns (done: bool, code: Code, n: nat)
    requires input.Length < MAX_WORD32 && dest.Length >= input.Length && dest != input
    modifies dest
    ensures room >= Compressor.Bound(input.Length, opts) ==> done
    ensures done ==> code == Ok && n <= dest.Length && dest[..n] == input[..]
  {
    hide ByteBits, Decompress, Compressor.Bound;
    var packed;
    done, packed := Compressor.CompressMem(input, room, opts, platform);
    code, n := DataError, 0;
    if done {
      code, n := Uncompress(dest, packed, opts.zlib);
    }
  }
}
