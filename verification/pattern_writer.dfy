/**
 * writepattern.cpp `writepattern`, `writelife105` and `writemacrocell`: the file is created,
 * the format chooses the writer, and an abort in the progress dialog overrides whatever
 * message the writer returned. A null message (success) is `None`.
 */
module PatternWriter {
  import opened Wrappers
  import opened OutBuffer
  import opened RleScan
  import opened RleWriter

  /** `pattern_format`; any other value of the enumeration reaches the `default` branch. */
  datatype PatternFormat = RleFormat | Life105Format | MacrocellFormat | OtherFormat

  /**
   * What the algorithm's own `writeNativeFormat` does, which is not part of this model: whether
   * the algorithm is hyper-capable, the text it writes, its message and whether it saw an abort.
   */
  datatype NativeWriter = NativeWriter(hyperCapable: bool, text: string, msg: Option<string>, aborted: bool)

  /** What one call leaves behind: the file's contents (if it was created) and the returned message. */
  datatype Outcome = Outcome(file: Option<string>, msg: Option<string>)

  /** What one format writer puts into the file, what it returns, and whether an abort happened. */
  datatype Written = Written(text: string, msg: Option<string>, aborted: bool)

  const CantCreate: string := "Can't create pattern file!"
  const Life105Missing: string := "Not yet implemented!!!"
  const MacrocellMissing: string := "Not yet implemented."
  const Unsupported: string := "Unsupported pattern format!"
  const Truncated: string := "File contains truncated pattern."

  /** `writelife105`: nothing is written and the same message is always returned. */
  function WriteLife105(): Written {
    Written("", Some(Life105Missing), false)
  }

  /** `writemacrocell`: only a hyper-capable algorithm can write its native format. */
  function WriteMacrocell(native: NativeWriter): Written {
    if native.hyperCapable then Written(native.text, native.msg, native.aborted)
    else Written("", Some(MacrocellMissing), false)
  }

  /** The writer the format selects; the RLE writer always returns null. */
  function Dispatch(format: PatternFormat, u: Universe, cancel: nat -> bool, r: Rect, native: NativeWriter): Written {
    match format
    case RleFormat =>
      var res := RleFile(u, cancel, r);
      Written(res.file, None, res.aborted)
    case Life105Format => WriteLife105()
    case MacrocellFormat => WriteMacrocell(native)
    case OtherFormat => Written("", Some(Unsupported), false)
  }

  /**
   * `writepattern`: if `fopen` fails nothing else happens; otherwise the chosen writer's text is
   * the file, and its message is returned unless the save was aborted.
   */
  function WritePattern(canCreate: bool, format: PatternFormat, u: Universe, cancel: nat -> bool, r: Rect,
                        native: NativeWriter): Outcome
  {
    if !canCreate then Outcome(None, Some(CantCreate))
    else
      var w := Dispatch(format, u, cancel, r, native);
      Outcome(Some(w.text), if w.aborted then Some(Truncated) else w.msg)
  }

  /** A file that cannot be created gives the fixed message and no file. */
  lemma CannotCreate(format: PatternFormat, u: Universe, cancel: nat -> bool, r: Rect, native: NativeWriter)
    ensures WritePattern(false, format, u, cancel, r, native) == Outcome(None, Some("Can't create pattern file!"))
  {
  }

  /**
   * The message returned for each format when the file was created: null for a complete RLE
   * save, fixed strings for the unimplemented and unknown formats, and the truncation message
   * after any abort, whatever the writer returned.
   */
  lemma DispatchMessages(format: PatternFormat, u: Universe, cancel: nat -> bool, r: Rect, native: NativeWriter)
    ensures var o := WritePattern(true, format, u, cancel, r, native);
      && o.file.Some?
      && (format == RleFormat ==> o.msg == (if RleFile(u, cancel, r).aborted then Some("File contains truncated pattern.") else None))
      && (format == Life105Format ==> o == Outcome(Some(""), Some("Not yet implemented!!!")))
      && (format == MacrocellFormat && !native.hyperCapable ==> o == Outcome(Some(""), Some("Not yet implemented.")))
      && (format == MacrocellFormat && native.hyperCapable && native.aborted ==> o.msg == Some("File contains truncated pattern."))
      && (format == MacrocellFormat && native.hyperCapable && !native.aborted ==> o.msg == native.msg)
      && (format == OtherFormat ==> o == Outcome(Some(""), Some("Unsupported pattern format!")))
  {
  }

  /**
   * An RLE save, driven through the output buffer, creates exactly the file `RleFile`
   * describes: the header and body, or the fixed text of an empty pattern.
   */
  method SaveRle(canCreate: bool, u: Universe, cancel: nat -> bool, r: Rect, stale: seq<char>) returns (o: Outcome)
    requires |stale| == BuffSize
    requires !WritesEmpty(u, r) ==> |RleHeader(r, u.rule)| + 1 <= BuffSize
    ensures !canCreate ==> o == Outcome(None, Some(CantCreate))
    ensures canCreate ==> o.file == Some(RleFile(u, cancel, r).file)
    ensures canCreate ==> (o.msg == None <==> !RleFile(u, cancel, r).aborted)
    ensures canCreate ==> o.msg == (if RleFile(u, cancel, r).aborted then Some(Truncated) else None)
    ensures forall native :: o == WritePattern(canCreate, RleFormat, u, cancel, r, native)
    ensures canCreate && WritesEmpty(u, r) ==> o == Outcome(Some(EmptyRle(u.rule)), None)
  {
    if !canCreate {
      return Outcome(None, Some(CantCreate));
    }
    var res := WriteRle(u, cancel, r, stale);
    o := Outcome(Some(res.file), if res.aborted then Some(Truncated) else None);
  }
}
