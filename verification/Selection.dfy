/** Which identity to present: the selection rules of the identity contract. */
module Selection {
  import opened Basics

  datatype Window =
    | OnePassword(fetchId: string, hardExpiry: int)
    | Disk
    | SelfSigned
  {
    function Source(): (s: string) {
      match this
      case OnePassword(_, _) => "1password"
      case Disk => "disk"
      case SelfSigned => "self-signed"
    }
  }

  datatype WindowState = Absent | Unparseable | Parsed(window: Window)

  datatype CacheState = CacheAbsent | CacheMalformed | Cached(fetchId: string, hardExpiry: int)

  /** `matches` is meaningful only when both other files are there. */
  datatype DiskState = DiskState(certificate: bool, key: bool, matches: bool, record: bool)

  datatype PairState = PairState(certificate: bool, key: bool)

  datatype Identity = FromCache | FromDisk | FromPair

  datatype Choice =
    | Chosen(identity: Identity, record: bool, create: bool, warnings: seq<string>)
    | Refused(error: string)

  function ChoosePair(pair: PairState, root: bool, warnings: seq<string>): (c: Choice) {
    if pair.certificate && pair.key then Chosen(FromPair, false, false, warnings)
    else if pair.certificate || pair.key then Refused("self-signed-half-pair")
    else if root then Refused("self-signed-missing")
    else Chosen(FromPair, false, true, warnings)
  }

  function ChooseDisk(disk: DiskState): (c: Choice) {
    Chosen(FromDisk, disk.record, false, [])
  }

  /** The mode selection uses: a parsed window's source, else the settings' one. */
  function Mode(source: Option<string>, window: WindowState): (m: string) {
    if window.Parsed? then window.window.Source()
    else if source.Some? then source.value else "disk"
  }

  function Select(source: Option<string>, window: WindowState, cache: CacheState,
                  disk: DiskState, pair: PairState, root: bool, now: int): (c: Choice)
  {
    match window
    case Unparseable => Refused("window-unparseable")
    case Parsed(OnePassword(fetchId, hardExpiry)) =>
      if hardExpiry <= now then Refused("window-expired")
      else (
        match cache
        case CacheAbsent => Refused("cache-missing")
        case CacheMalformed => Refused("cache-malformed")
        case Cached(f, e) =>
          if f != fetchId then Refused("cache-mismatch")
          else if e <= now then Refused("cache-expired")
          else Chosen(FromCache, true, false, []))
    case Parsed(Disk) =>
      if !(disk.certificate && disk.key) then Refused("disk-missing")
      else if !disk.matches then Refused("disk-mismatch")
      else ChooseDisk(disk)
    case Parsed(SelfSigned) => ChoosePair(pair, root, [])
    case Absent =>
      var m := Mode(source, window);
      if m == "1password" || m == "self-signed" then ChoosePair(pair, root, [])
      else if m != "disk" then ChoosePair(pair, root, ["unknown-mode"])
      else if disk.certificate && disk.key then
        if disk.matches then ChooseDisk(disk)
        else ChoosePair(pair, root, ["disk-mismatch"])
      else if disk.certificate || disk.key then ChoosePair(pair, root, ["disk-incomplete"])
      else ChoosePair(pair, root, [])
  }

  /**
   * Who may present what, both ways: the cache only through a live 1Password
   * window holding its fetch id, the disk identity only through a disk window
   * or, with no window, disk mode; a record never with a self-signed pair.
   */
  lemma SelectExactly(source: Option<string>, window: WindowState, cache: CacheState,
                      disk: DiskState, pair: PairState, root: bool, now: int)
    ensures var c := Select(source, window, cache, disk, pair, root, now);
            && ((c.Chosen? && c.identity == FromCache) <==>
                (&& window.Parsed? && window.window.OnePassword? && cache.Cached?
                 && cache.fetchId == window.window.fetchId
                 && now < window.window.hardExpiry && now < cache.hardExpiry))
            && ((c.Chosen? && c.identity == FromDisk) <==>
                (&& disk.certificate && disk.key && disk.matches
                 && !window.Unparseable? && Mode(source, window) == "disk"))
            && (c.Chosen? && c.record ==> c.identity == FromCache || (c.identity == FromDisk && disk.record))
            && (c.Chosen? && c.create ==> c.identity == FromPair && !root && !pair.certificate && !pair.key)
            // A 1Password window presents the cache or nothing.
            && (window.Parsed? && window.window.OnePassword? && c.Chosen? ==> c.identity == FromCache)
  {
    if window.Parsed? && !window.window.Disk? {
      assert window.window.Source() != "disk";
    }
  }

  // ------------------------------------------------------------------ the self-signed pair, and the mode

  /** Nothing but a whole pair, or none where one may be made, is usable; only the latter is made. */
  lemma PairExactly(pair: PairState, root: bool, warnings: seq<string>)
    ensures var c := ChoosePair(pair, root, warnings);
            && (c.Chosen? <==> pair.certificate == pair.key && (pair.certificate || !root))
            && (c.Chosen? ==>
                  c.identity == FromPair && !c.record && c.warnings == warnings && (c.create <==> !pair.certificate))
            && (c == Refused("self-signed-half-pair") <==> pair.certificate != pair.key)
  {
    assert |"self-signed-half-pair"| == 21 && |"self-signed-missing"| == 19;
  }

  /** The open window's source, else the settings' own word, and with none of these the disk. */
  lemma ModeExactly(source: Option<string>, window: WindowState)
    ensures window == Parsed(Disk) ==> Mode(source, window) == "disk"
    ensures window == Parsed(SelfSigned) ==> Mode(source, window) == "self-signed"
    ensures window.Parsed? && window.window.OnePassword? ==> Mode(source, window) == "1password"
    ensures !window.Parsed? && source.Some? ==> Mode(source, window) == source.value
    ensures !window.Parsed? && source.None? ==> Mode(source, window) == "disk"
  {
  }

  /** Without a window, disk mode with a whole matching identity, or it has nothing but the pair. */
  predicate OffersDisk(source: Option<string>, disk: DiskState) {
    disk.certificate && disk.key && disk.matches && (source == None || source == Some("disk"))
  }

  /**
   * Without a window: the identity on disk if it is offered, else the pair, with a
   * warning that names what kept the disk out.
   */
  lemma WithoutWindow(source: Option<string>, cache: CacheState, disk: DiskState, pair: PairState, root: bool, now: int)
    ensures var c := Select(source, Absent, cache, disk, pair, root, now);
            && (OffersDisk(source, disk) ==> c == Chosen(FromDisk, disk.record, false, []))
            && (!OffersDisk(source, disk) ==>
                  exists warnings: seq<string> ::
                    && c == ChoosePair(pair, root, warnings)
                    && (warnings == [] <==>
                        || source == Some("1password") || source == Some("self-signed")
                        || ((source == None || source == Some("disk")) && !disk.certificate && !disk.key)))
  {
    assert |"1password"| == 9 && |"disk"| == 4 && |"self-signed"| == 11;
    assert ["unknown-mode"] != [] && ["disk-mismatch"] != [] && ["disk-incomplete"] != [];
    var m := Mode(source, Absent);
    var warnings: seq<string> :=
      if m == "1password" || m == "self-signed" then []
      else if m != "disk" then ["unknown-mode"]
      else if disk.certificate && disk.key then ["disk-mismatch"]
      else if disk.certificate || disk.key then ["disk-incomplete"]
      else [];
    if !OffersDisk(source, disk) {
      assert Select(source, Absent, cache, disk, pair, root, now) == ChoosePair(pair, root, warnings);
    }
  }
}
