/**
 * Option processing and output-settings resolution of mergecap's original_main: the
 * getopt loop that records the options in local variables, then the checks and
 * defaults applied before the merge engine is called.
 *
 * getopt itself is not modelled: the options arrive already parsed, in command-line
 * order, and the operands (the input file names) separately. The wiretap lookups and
 * capability queries, get_nonzero_uint32 and the merge engine are foreign calls; they
 * are the fields of a Library value the caller supplies.
 */
module Settings {
  import opened Wrappers

  newtype uint32 = x: int | 0 <= x < 0x1_0000_0000

  /** WTAP_FILE_TYPE_SUBTYPE_UNKNOWN: no file type chosen. */
  const FILE_TYPE_UNKNOWN: int := -1

  /** idb_merge_mode; IdbModeMax doubles as "not given" and "not a valid name". */
  datatype IdbMergeMode = IdbNone | IdbAllSame | IdbAnySame | IdbModeMax

  /** wtap_compression_type: uncompressed, one of the library's compressed formats, or unknown. */
  datatype Compression = Uncompressed | Compressed(id: nat) | UnknownCompression

  /** One option as getopt returns it, with its argument. */
  datatype Opt =
    | OptAppend                   // -a
    | OptFileType(name: string)   // -F <capture type>
    | OptHelp                     // -h, --help
    | OptIdbMode(name: string)    // -I <IDB merge mode>
    | OptSnaplen(arg: string)     // -s <snaplen>
    | OptVerbose                  // -V
    | OptVersion                  // -v, --version
    | OptWrite(arg: string)       // -w <outfile>|-
    | OptCompress(name: string)   // --compress <type>
    | OptBad                      // '?': unknown option or missing argument

  /** What is handed to merge_files or merge_files_to_stdout. */
  datatype MergeRequest = MergeRequest(
    toStdout: bool,
    outFilename: string,
    fileType: int,
    inputs: seq<string>,
    doAppend: bool,
    mode: IdbMergeMode,
    snaplen: uint32,
    verbose: bool,              // whether the progress callback is passed
    compression: Compression)

  /** The foreign calls original_main makes, as values. */
  datatype Library = Library(
    nameToFileType: string -> int,                // wtap_name_to_file_type_subtype
    pcapngFileType: int,                          // wtap_pcapng_file_type_subtype()
    nameToIdbMode: string -> IdbMergeMode,        // merge_string_to_idb_merge_mode
    snaplenOf: string -> uint32,                  // get_nonzero_uint32
    nameToCompression: string -> Compression,     // wtap_name_to_compression_type
    extensionToCompression: string -> Compression,// wtap_extension_to_compression_type
    canWriteCompression: Compression -> bool,     // wtap_can_write_compression_type
    canCompress: int -> bool,                     // wtap_dump_can_compress
    supportsInterfaces: int -> bool,              // supports_block(ft, WTAP_BLOCK_IF_ID_AND_INFO) != BLOCK_NOT_SUPPORTED
    mergeFiles: MergeRequest -> bool)             // merge_files / merge_files_to_stdout

  /** Why original_main ends without merging. */
  datatype Stop =
    | HelpShown
    | VersionShown
    | BadFileType(name: string)
    | BadIdbMode(name: string)
    | BadCompressionName(name: string)
    | BadOption
    | NoOutputFile
    | NoInputFiles
    | CannotWriteCompression(compression: Compression)
    | CannotCompressFormat(fileType: int)
    | IdbModeUnsupported(fileType: int)

  datatype Outcome = Stopped(reason: Stop) | Merged(request: MergeRequest, succeeded: bool)

  /** The process exit status original_main returns for each outcome. */
  function ExitStatus(outcome: Outcome): int
  {
    match outcome
    case Merged(_, succeeded) => if succeeded then 0 else 2
    case Stopped(HelpShown) => 0
    case Stopped(VersionShown) => 0
    case Stopped(BadCompressionName(_)) => 0   // clean_exit is reached with status still true
    case Stopped(NoInputFiles) => 1
    case Stopped(_) => 2
  }

  // ---------------------------------------------------------------------------
  // Specification of the option loop
  // ---------------------------------------------------------------------------

  /** The reason an option ends option processing, if it does. */
  function StopAt(lib: Library, o: Opt): Option<Stop>
  {
    match o
    case OptFileType(name) =>
      if lib.nameToFileType(name) < 0 then Some(BadFileType(name)) else None
    case OptHelp => Some(HelpShown)
    case OptIdbMode(name) =>
      if lib.nameToIdbMode(name) == IdbModeMax then Some(BadIdbMode(name)) else None
    case OptVersion => Some(VersionShown)
    case OptCompress(name) =>
      if lib.nameToCompression(name) == UnknownCompression then Some(BadCompressionName(name)) else None
    case OptBad => Some(BadOption)
    case _ => None
  }

  /** How many options take effect: those before the first that ends option processing. */
  function ScanLength(lib: Library, opts: seq<Opt>): (k: nat)
    ensures k <= |opts|
    ensures forall j :: 0 <= j < k ==> StopAt(lib, opts[j]).None?
    ensures k < |opts| ==> StopAt(lib, opts[k]).Some?
  {
    if opts == [] then 0
    else if StopAt(lib, opts[0]).Some? then 0
    else 1 + ScanLength(lib, opts[1..])
  }

  /** The conditions of ScanLength's contract determine its result. */
  lemma ScanLengthUnique(lib: Library, opts: seq<Opt>, k: nat)
    requires k <= |opts|
    requires forall j :: 0 <= j < k ==> StopAt(lib, opts[j]).None?
    requires k < |opts| ==> StopAt(lib, opts[k]).Some?
    ensures ScanLength(lib, opts) == k
  {
  }

  /** Index of the last option satisfying p. */
  function LastWhere(opts: seq<Opt>, p: Opt -> bool): (r: Option<nat>)
    ensures r.Some? ==> r.value < |opts| && p(opts[r.value]) &&
                        forall j :: r.value < j < |opts| ==> !p(opts[j])
    ensures r.None? ==> forall j :: 0 <= j < |opts| ==> !p(opts[j])
  {
    if opts == [] then None
    else if p(opts[|opts| - 1]) then Some(|opts| - 1)
    else LastWhere(opts[..|opts| - 1], p)
  }

  predicate IsFileType(o: Opt) { o.OptFileType? }
  predicate IsIdbMode(o: Opt) { o.OptIdbMode? }
  predicate IsSnaplen(o: Opt) { o.OptSnaplen? }
  predicate IsWrite(o: Opt) { o.OptWrite? }
  predicate IsCompress(o: Opt) { o.OptCompress? }

  /** The local variables of original_main that the option loop sets. */
  datatype OptionState = OptionState(
    doAppend: bool,
    verbose: bool,
    snaplen: uint32,
    fileType: int,
    outFilename: Option<string>,
    mode: IdbMergeMode,
    compression: Compression)

  /** -a toggles: append is on after an odd number of them. */
  function AppendOn(ps: seq<Opt>): bool { multiset(ps)[OptAppend] % 2 == 1 }

  /** -V sets verbose for good. */
  function VerboseOn(ps: seq<Opt>): bool { OptVerbose in ps }

  /** The snapshot length of the last -s, or 0. */
  function LastSnaplen(lib: Library, ps: seq<Opt>): uint32 {
    match LastWhere(ps, IsSnaplen)
    case None => 0
    case Some(j) => lib.snaplenOf(ps[j].arg)
  }

  /** The file type named by the last -F, or FILE_TYPE_UNKNOWN. */
  function LastFileType(lib: Library, ps: seq<Opt>): int {
    match LastWhere(ps, IsFileType)
    case None => FILE_TYPE_UNKNOWN
    case Some(j) => lib.nameToFileType(ps[j].name)
  }

  /** The argument of the last -w, if any. */
  function LastOutFilename(ps: seq<Opt>): Option<string> {
    match LastWhere(ps, IsWrite)
    case None => None
    case Some(j) => Some(ps[j].arg)
  }

  /** The mode named by the last -I, or IdbModeMax. */
  function LastIdbMode(lib: Library, ps: seq<Opt>): IdbMergeMode {
    match LastWhere(ps, IsIdbMode)
    case None => IdbModeMax
    case Some(j) => lib.nameToIdbMode(ps[j].name)
  }

  /** The compression named by the last --compress, or UnknownCompression. */
  function LastCompression(lib: Library, ps: seq<Opt>): Compression {
    match LastWhere(ps, IsCompress)
    case None => UnknownCompression
    case Some(j) => lib.nameToCompression(ps[j].name)
  }

  /**
   * The locals after the options ps have taken effect: -a toggles, -V sets verbose,
   * for every option with an argument the last occurrence wins, and what was never
   * given keeps its initial value.
   */
  function OptionsSeen(lib: Library, ps: seq<Opt>): OptionState
  {
    OptionState(AppendOn(ps), VerboseOn(ps), LastSnaplen(lib, ps), LastFileType(lib, ps),
                LastOutFilename(ps), LastIdbMode(lib, ps), LastCompression(lib, ps))
  }

  /** The initial values of the locals the option loop sets. */
  const InitialOptions := OptionState(false, false, 0, FILE_TYPE_UNKNOWN, None, IdbModeMax, UnknownCompression)

  /** What one case of the option switch assigns to the locals. */
  function Step(lib: Library, st: OptionState, o: Opt): OptionState
  {
    match o
    case OptAppend => st.(doAppend := !st.doAppend)
    case OptFileType(name) => st.(fileType := lib.nameToFileType(name))
    case OptIdbMode(name) => st.(mode := lib.nameToIdbMode(name))
    case OptSnaplen(arg) => st.(snaplen := lib.snaplenOf(arg))
    case OptVerbose => st.(verbose := true)
    case OptWrite(arg) => st.(outFilename := Some(arg))
    case OptCompress(name) => st.(compression := lib.nameToCompression(name))
    case _ => st
  }

  /** The locals after the switch has run on each of ps in turn. */
  function Replay(lib: Library, ps: seq<Opt>): OptionState
    decreases |ps|
  {
    if ps == [] then InitialOptions
    else Step(lib, Replay(lib, ps[..|ps| - 1]), ps[|ps| - 1])
  }

  /** Taking one more option into account is one more step of the switch. */
  lemma ReplaySnoc(lib: Library, opts: seq<Opt>, i: nat)
    requires i < |opts|
    ensures Replay(lib, opts[..i + 1]) == Step(lib, Replay(lib, opts[..i]), opts[i])
  {
    assert opts[..i + 1][..i] == opts[..i];
  }

  /** One more option: the last occurrence of a kind is the new one if it is of that kind. */
  lemma LastWhereSnoc(ps: seq<Opt>, o: Opt, p: Opt -> bool)
    ensures LastWhere(ps + [o], p) == if p(o) then Some(|ps|) else LastWhere(ps, p)
  {
    assert (ps + [o])[..|ps|] == ps;
  }

  lemma AppendOnSnoc(ps: seq<Opt>, o: Opt)
    ensures AppendOn(ps + [o]) == if o == OptAppend then !AppendOn(ps) else AppendOn(ps)
  {
    assert multiset(ps + [o]) == multiset(ps) + multiset{o};
  }

  lemma VerboseOnSnoc(ps: seq<Opt>, o: Opt)
    ensures VerboseOn(ps + [o]) == (VerboseOn(ps) || o == OptVerbose)
  {
    assert OptVerbose in ps + [o] <==> OptVerbose in ps || o == OptVerbose;
  }

  /**
   * Each option updates exactly its own local: -a flips append, -V sets verbose, an
   * option with an argument replaces the value of its kind, and nothing else changes.
   * That is, one more option acts on OptionsSeen as one case of the switch does.
   */
  lemma OptionsSeenSnoc(lib: Library, ps: seq<Opt>, o: Opt)
    ensures OptionsSeen(lib, ps + [o]) == Step(lib, OptionsSeen(lib, ps), o)
  {
    AppendOnSnoc(ps, o);
    VerboseOnSnoc(ps, o);
    LastSnaplenSnoc(lib, ps, o);
    LastFileTypeSnoc(lib, ps, o);
    LastOutFilenameSnoc(ps, o);
    LastIdbModeSnoc(lib, ps, o);
    LastCompressionSnoc(lib, ps, o);
  }

  lemma LastSnaplenSnoc(lib: Library, ps: seq<Opt>, o: Opt)
    ensures LastSnaplen(lib, ps + [o]) == if o.OptSnaplen? then lib.snaplenOf(o.arg) else LastSnaplen(lib, ps)
  {
    LastWhereSnoc(ps, o, IsSnaplen);
  }

  lemma LastFileTypeSnoc(lib: Library, ps: seq<Opt>, o: Opt)
    ensures LastFileType(lib, ps + [o]) == if o.OptFileType? then lib.nameToFileType(o.name) else LastFileType(lib, ps)
  {
    LastWhereSnoc(ps, o, IsFileType);
  }

  lemma LastOutFilenameSnoc(ps: seq<Opt>, o: Opt)
    ensures LastOutFilename(ps + [o]) == if o.OptWrite? then Some(o.arg) else LastOutFilename(ps)
  {
    LastWhereSnoc(ps, o, IsWrite);
  }

  lemma LastIdbModeSnoc(lib: Library, ps: seq<Opt>, o: Opt)
    ensures LastIdbMode(lib, ps + [o]) == if o.OptIdbMode? then lib.nameToIdbMode(o.name) else LastIdbMode(lib, ps)
  {
    LastWhereSnoc(ps, o, IsIdbMode);
  }

  lemma LastCompressionSnoc(lib: Library, ps: seq<Opt>, o: Opt)
    ensures LastCompression(lib, ps + [o]) == if o.OptCompress? then lib.nameToCompression(o.name) else LastCompression(lib, ps)
  {
    LastWhereSnoc(ps, o, IsCompress);
  }

  /**
   * When no option ends processing, every -F named a valid file type, so the file type
   * the options leave is either a valid one or still unknown.
   */
  lemma AcceptedFileType(lib: Library, opts: seq<Opt>)
    requires forall j :: 0 <= j < |opts| ==> StopAt(lib, opts[j]).None?
    ensures LastFileType(lib, opts) == FILE_TYPE_UNKNOWN || LastFileType(lib, opts) >= 0
  {
    match LastWhere(opts, IsFileType)
    case None =>
    case Some(j) => assert StopAt(lib, opts[j]).None?;
  }

  /**
   * Running the switch option by option leaves the locals described by OptionsSeen:
   * append toggled once per -a, verbose set by any -V, the last occurrence of each
   * option with an argument deciding its local.
   */
  lemma {:induction false} ReplayKeepsLast(lib: Library, ps: seq<Opt>)
    ensures Replay(lib, ps) == OptionsSeen(lib, ps)
    decreases |ps|
  {
    if ps != [] {
      var init, o := ps[..|ps| - 1], ps[|ps| - 1];
      assert ps == init + [o];
      ReplayKeepsLast(lib, init);
      OptionsSeenSnoc(lib, init, o);
    }
  }

  // ---------------------------------------------------------------------------
  // Compression resolution
  // ---------------------------------------------------------------------------

  /** strrchr: the index of the last c in s. */
  function StrRChr(s: string, c: char): (r: Option<nat>)
    ensures r.Some? ==> r.value < |s| && s[r.value] == c &&
                        forall j :: r.value < j < |s| ==> s[j] != c
    ensures r.None? ==> c !in s
  {
    if s == [] then None
    else if s[|s| - 1] == c then Some(|s| - 1)
    else StrRChr(s[..|s| - 1], c)
  }

  /**
   * The compression the output is written with: an explicitly given one is kept;
   * otherwise the one named by the text after the last '.' of the output file name;
   * failing both, none.
   */
  function ResolvedCompression(lib: Library, explicit: Compression, outFilename: string): (c: Compression)
    ensures c != UnknownCompression
    ensures explicit != UnknownCompression ==> c == explicit
    ensures explicit == UnknownCompression && '.' !in outFilename ==> c == Uncompressed
    ensures explicit == UnknownCompression && '.' in outFilename ==>
              var suffix := outFilename[StrRChr(outFilename, '.').value + 1..];
              var byName := lib.extensionToCompression(suffix);
              c == if byName == UnknownCompression then Uncompressed else byName
  {
    if explicit != UnknownCompression then explicit
    else
      match StrRChr(outFilename, '.')
      case None => Uncompressed
      case Some(dot) =>
        var byName := lib.extensionToCompression(outFilename[dot + 1..]);
        if byName == UnknownCompression then Uncompressed else byName
  }

  /**
   * The compression step of original_main: an explicitly specified compression type
   * overrides the one the output file name's extension suggests; none is the fallback.
   */
  method ChooseCompression(lib: Library, explicit: Compression, outFilename: string)
    returns (compression: Compression)
    ensures compression == ResolvedCompression(lib, explicit, outFilename)
  {
    compression := explicit;
    if compression == UnknownCompression {
      var sfx := StrRChr(outFilename, '.');
      if sfx.Some? {
        compression := lib.extensionToCompression(outFilename[sfx.value + 1..]);
      }
    }
    if compression == UnknownCompression {
      compression := Uncompressed;
    }
  }

  // ---------------------------------------------------------------------------
  // original_main
  // ---------------------------------------------------------------------------

  /**
   * The getopt loop of original_main: the options take effect one by one until one
   * ends processing (help, version, an invalid argument, a bad option), whose reason is
   * returned; otherwise the locals are those the options set.
   */
  method ScanOptions(lib: Library, opts: seq<Opt>) returns (scanned: OptionState, stop: Option<Stop>)
    ensures var k := ScanLength(lib, opts);
            stop == if k < |opts| then StopAt(lib, opts[k]) else None
    ensures stop.None? ==> scanned == OptionsSeen(lib, opts)
  {
    scanned := InitialOptions;
    var doAppend := false;
    var verbose := false;
    var snaplen: uint32 := 0;
    var fileType := FILE_TYPE_UNKNOWN;
    var outFilename: Option<string> := None;
    var mode := IdbModeMax;
    var compression := UnknownCompression;

    var i := 0;
    while i < |opts|
      decreases |opts| - i
      invariant 0 <= i <= |opts|
      invariant forall j :: 0 <= j < i ==> StopAt(lib, opts[j]).None?
      invariant OptionState(doAppend, verbose, snaplen, fileType, outFilename, mode, compression)
                == Replay(lib, opts[..i])
    {
      ReplaySnoc(lib, opts, i);
      match opts[i] {
      case OptAppend =>
        doAppend := !doAppend;
      case OptFileType(name) =>
        fileType := lib.nameToFileType(name);
        if fileType < 0 {
          ScanLengthUnique(lib, opts, i);
          stop := Some(BadFileType(name));
          return;
        }
      case OptHelp =>
        ScanLengthUnique(lib, opts, i);
        stop := Some(HelpShown);
        return;
      case OptIdbMode(name) =>
        mode := lib.nameToIdbMode(name);
        if mode == IdbModeMax {
          ScanLengthUnique(lib, opts, i);
          stop := Some(BadIdbMode(name));
          return;
        }
      case OptSnaplen(arg) =>
        snaplen := lib.snaplenOf(arg);
      case OptVerbose =>
        verbose := true;
      case OptVersion =>
        ScanLengthUnique(lib, opts, i);
        stop := Some(VersionShown);
        return;
      case OptWrite(arg) =>
        outFilename := Some(arg);
      case OptCompress(name) =>
        compression := lib.nameToCompression(name);
        if compression == UnknownCompression {
          ScanLengthUnique(lib, opts, i);
          stop := Some(BadCompressionName(name));
          return;
        }
      case OptBad =>
        ScanLengthUnique(lib, opts, i);
        stop := Some(BadOption);
        return;
      }
      i := i + 1;
    }
    ScanLengthUnique(lib, opts, |opts|);
    assert opts[..|opts|] == opts;
    ReplayKeepsLast(lib, opts);
    stop := None;
    scanned := OptionState(doAppend, verbose, snaplen, fileType, outFilename, mode, compression);
  }

  /**
   * What original_main does once the options are in: pcapng is the default file type;
   * an output file and at least one input file are required; the compression is chosen
   * and must be writable, and compressible in the file type when it is not none; an
   * explicit IDB merge mode needs a file type that records interfaces, and all-same is
   * the default; then the merge engine is called.
   * This is the reference the method Settle is proved against; SettledMergeIsSound
   * states what it guarantees about the merges it starts.
   */
  function Settled(lib: Library, st: OptionState, operands: seq<string>): Outcome
  {
    var fileType := if st.fileType == FILE_TYPE_UNKNOWN then lib.pcapngFileType else st.fileType;
    if st.outFilename.None? then Stopped(NoOutputFile)
    else if operands == [] then Stopped(NoInputFiles)
    else
      var compression := ResolvedCompression(lib, st.compression, st.outFilename.value);
      if !lib.canWriteCompression(compression) then Stopped(CannotWriteCompression(compression))
      else if compression != Uncompressed && !lib.canCompress(fileType) then Stopped(CannotCompressFormat(fileType))
      else if st.mode != IdbModeMax && !lib.supportsInterfaces(fileType) then Stopped(IdbModeUnsupported(fileType))
      else
        var request := MergeRequest(
          st.outFilename.value == "-", st.outFilename.value, fileType, operands, st.doAppend,
          if st.mode == IdbModeMax then IdbAllSame else st.mode, st.snaplen, st.verbose, compression);
        Merged(request, lib.mergeFiles(request))
  }

  /**
   * A merge is started exactly when an output file and an input are given and the three
   * checks pass; and only with what the merge engine can be given: the operands as
   * inputs, at least one of them; the -w name as output, "-" meaning the standard
   * output; the toggled append flag; a real IDB merge mode; a known, writable
   * compression that is none or supported by the file type; and a valid file type.
   */
  lemma SettledMergeIsSound(lib: Library, st: OptionState, operands: seq<string>)
    requires st.fileType == FILE_TYPE_UNKNOWN || st.fileType >= 0
    ensures var fileType := if st.fileType == FILE_TYPE_UNKNOWN then lib.pcapngFileType else st.fileType;
      Settled(lib, st, operands).Merged? <==>
        && st.outFilename.Some? && operands != []
        && var compression := ResolvedCompression(lib, st.compression, st.outFilename.value);
        && lib.canWriteCompression(compression)
        && (compression != Uncompressed ==> lib.canCompress(fileType))
        && (st.mode != IdbModeMax ==> lib.supportsInterfaces(fileType))
    ensures var outcome := Settled(lib, st, operands);
      outcome.Merged? ==>
      var r := outcome.request;
      && st.outFilename == Some(r.outFilename)
      && (r.toStdout <==> r.outFilename == "-")
      && r.inputs == operands && r.inputs != []
      && r.doAppend == st.doAppend && r.snaplen == st.snaplen && r.verbose == st.verbose
      && r.mode == (if st.mode == IdbModeMax then IdbAllSame else st.mode)
      && r.mode != IdbModeMax
      && r.fileType == (if st.fileType == FILE_TYPE_UNKNOWN then lib.pcapngFileType else st.fileType)
      && r.compression == ResolvedCompression(lib, st.compression, r.outFilename)
      && r.compression != UnknownCompression
      && lib.canWriteCompression(r.compression)
      && (r.compression != Uncompressed ==> lib.canCompress(r.fileType))
      && (r.fileType >= 0 || r.fileType == lib.pcapngFileType)
      && (st.mode != IdbModeMax ==> lib.supportsInterfaces(r.fileType))
  {
  }

  /** The steps of original_main after the option loop, in their order. */
  method Settle(lib: Library, st: OptionState, operands: seq<string>)
    returns (outcome: Outcome, status: int)
    ensures outcome == Settled(lib, st, operands)
    ensures status == ExitStatus(outcome)
  {
    var doAppend, verbose, snaplen := st.doAppend, st.verbose, st.snaplen;
    var fileType, outFilename := st.fileType, st.outFilename;
    var mode, compression := st.mode, st.compression;

    // Default to pcapng when writing.
    if fileType == FILE_TYPE_UNKNOWN {
      fileType := lib.pcapngFileType;
    }

    if outFilename.None? {
      outcome := Stopped(NoOutputFile);
      return outcome, 2;
    }
    if |operands| < 1 {
      outcome := Stopped(NoInputFiles);
      return outcome, 1;
    }

    compression := ChooseCompression(lib, compression, outFilename.value);

    if !lib.canWriteCompression(compression) {
      outcome := Stopped(CannotWriteCompression(compression));
      return outcome, 2;
    }
    if compression != Uncompressed && !lib.canCompress(fileType) {
      outcome := Stopped(CannotCompressFormat(fileType));
      return outcome, 2;
    }
    // Setting an IDB merge mode needs a format that identifies interfaces.
    if mode != IdbModeMax && !lib.supportsInterfaces(fileType) {
      outcome := Stopped(IdbModeUnsupported(fileType));
      return outcome, 2;
    }
    if mode == IdbModeMax {
      mode := IdbAllSame;
    }

    var request := MergeRequest(outFilename.value == "-", outFilename.value, fileType, operands,
                                doAppend, mode, snaplen, verbose, compression);
    var succeeded := lib.mergeFiles(request);
    outcome := Merged(request, succeeded);
    status := if succeeded then 0 else 2;
  }

  /**
   * original_main from the option loop to the call of the merge engine. The first
   * option that ends processing decides the outcome; otherwise the options seen, last
   * occurrence winning, go through the remaining checks and defaults.
   */
  method OriginalMain(lib: Library, opts: seq<Opt>, operands: seq<string>)
    returns (outcome: Outcome, status: int)
    ensures status == ExitStatus(outcome)
    ensures var k := ScanLength(lib, opts);
            outcome == if k < |opts| then Stopped(StopAt(lib, opts[k]).value)
                       else Settled(lib, OptionsSeen(lib, opts), operands)
    ensures outcome.Merged? ==>
      var r := outcome.request;
      && r.inputs == operands && r.inputs != []
      && r.doAppend == (multiset(opts)[OptAppend] % 2 == 1)
      && r.mode != IdbModeMax
      && lib.canWriteCompression(r.compression)
      && (r.compression != Uncompressed ==> lib.canCompress(r.fileType))
      && (r.fileType >= 0 || r.fileType == lib.pcapngFileType)
  {
    var scanned, stop := ScanOptions(lib, opts);
    if stop.Some? {
      outcome := Stopped(stop.value);
      return outcome, ExitStatus(outcome);
    }
    AcceptedFileType(lib, opts);
    SettledMergeIsSound(lib, scanned, operands);
    outcome, status := Settle(lib, scanned, operands);
  }
}
