/** What the compressor is told: the flags of `tdefl_init` and the kind of flush. */
module Settings {
  /** The flags given to `tdefl_init`; `probes` is their low 12 bits. */
  datatype Options = Options(probes: nat, greedy: bool, zlib: bool, computeAdler: bool, rle: bool, filter: bool, forceStatic: bool,
                             forceRaw: bool)

  datatype FlushKind = NoFlush | SyncFlush | FullFlush | Finish

  datatype Status = Okay | Done | BadParam

  /** What the machine offers, as `miniz.h` finds out: it decides which variants are built in. */
  datatype Platform = Platform(unaligned: bool, littleEndian: bool, wideRegisters: bool)

  /** The emitter with the 64-bit register. */
  predicate WideEmitter(p: Platform) { p.unaligned && p.littleEndian && p.wideRegisters }

  /** The parser for one probe and greedy parsing, `tdefl_compress_fast`. */
  predicate FastParser(p: Platform, opts: Options) {
    p.unaligned && p.littleEndian && opts.probes == 1 && opts.greedy && !opts.filter && !opts.forceRaw && !opts.rle
  }
}
