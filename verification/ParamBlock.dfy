/**
  The bitmap-driven parameter block: afp_setparms_lowlevel (lib/proto_files.c) packs the parameters whose
  bits are set, parse_reply_block (lib/proto_replyblock.c) takes a block apart.
 */
module ParamBlock {
  import opened Bytes

  type uint8 = byte
  type uint16 = x: int | 0 <= x < 0x1_0000
  type uint32 = x: int | 0 <= x < 0x1_0000_0000

  const BITS: nat := 16
  const ATTRIBUTE: nat := 0
  const PARENT_DIR_ID: nat := 1
  const CREATE_DATE: nat := 2
  const MOD_DATE: nat := 3
  const BACKUP_DATE: nat := 4
  const FINDER_INFO: nat := 5
  const LONG_NAME: nat := 6
  const SHORT_NAME: nat := 7
  const NODE_ID: nat := 8
  const OFFSPRING_COUNT: nat := 9
  const OWNER_ID: nat := 10
  const GROUP_ID: nat := 11
  const ACCESS_RIGHTS: nat := 12
  const DATA_FORK_LEN: nat := 9
  const RSRC_FORK_LEN: nat := 10
  const EXT_DATA_FORK_LEN: nat := 11
  const LAUNCH_LIMIT: nat := 12
  const UTF8_NAME: nat := 13
  const EXT_RSRC_FORK_LEN: nat := 14
  const UNIX_PRIVS: nat := 15

  const AD_DATE_DELTA: nat := 946684800
  const AFP_MAX_PATH: nat := 768

  /** Whether bit k of the bitmap is set. */
  predicate Has(bitmap: uint16, k: nat) {
    if k == 0 then bitmap % 2 == 1 else Has(bitmap / 2, k - 1)
  }

  /** The width on the wire of the field of bit k. */
  function ParseWidth(isdir: bool, k: nat): nat
    requires k < BITS
  {
    if k == ATTRIBUTE || k == LONG_NAME || k == SHORT_NAME then 2
    else if k < FINDER_INFO || k == NODE_ID then 4
    else if k == FINDER_INFO then 32
    else if k == UTF8_NAME then 6
    else if k == EXT_RSRC_FORK_LEN then 8
    else if k == UNIX_PRIVS then 16
    else if isdir then (if k == OFFSPRING_COUNT then 2 else 4)
    else if k == EXT_DATA_FORK_LEN then 8
    else if k == LAUNCH_LIMIT then 2
    else 4
  }

  /** The bits afp_setparms_lowlevel writes a field for. */
  predicate Settable(k: nat) {
    k in {ATTRIBUTE, CREATE_DATE, MOD_DATE, BACKUP_DATE, FINDER_INFO, UNIX_PRIVS}
  }

  predicate OnlySettable(bitmap: uint16) {
    forall k :: 0 <= k < BITS && Has(bitmap, k) ==> Settable(k)
  }

  /** Where the field of bit k starts: after the fields of the lower bits that are set. */
  function Offset(isdir: bool, bitmap: uint16, k: nat): nat
    requires k <= BITS
  {
    if k == 0 then 0
    else Offset(isdir, bitmap, k - 1) + if Has(bitmap, k - 1) then ParseWidth(isdir, k - 1) else 0
  }

  lemma {:induction false} OffsetGrows(isdir: bool, bitmap: uint16, k: nat, l: nat)
    requires k <= l <= BITS
    ensures Offset(isdir, bitmap, k) <= Offset(isdir, bitmap, l)
    decreases l
  {
    if k < l { OffsetGrows(isdir, bitmap, k, l - 1); }
  }

  lemma OffsetNext(isdir: bool, bitmap: uint16, k: nat)
    requires k < BITS
    ensures Offset(isdir, bitmap, k + 1) ==
              Offset(isdir, bitmap, k) + if Has(bitmap, k) then ParseWidth(isdir, k) else 0
    ensures Offset(isdir, bitmap, k + 1) <= Offset(isdir, bitmap, BITS)
  {
    OffsetGrows(isdir, bitmap, k + 1, BITS);
  }

  /** AD_DATE_FROM_UNIX: Unix time as seconds since 2000, in 32 bits. */
  function FromUnix(t: uint32): uint32 {
    (t - AD_DATE_DELTA) % 0x1_0000_0000
  }

  datatype Privs = Privs(uid: uint32, gid: uint32, permissions: uint32, uaPermissions: uint32)

  datatype FileInfo = FileInfo(
    isdir: bool, attributes: uint16, did: uint32,
    creationDate: uint32, modificationDate: uint32, backupDate: uint32,
    finderInfo: seq<byte>, name: seq<byte>, fileId: uint32, offspring: uint16,
    unixprivs: Privs, accessRights: uint32, size: nat, resourceSize: uint16)

  /** memset(filecur, 0, sizeof *filecur). */
  const CLEARED := FileInfo(false, 0, 0, 0, 0, 0, Zeros(32), [], 0, 0, Privs(0, 0, 0, 0), 0, 0, 0)

  // ---- The block that is sent ----

  /** The bytes of the field of bit k; only the high byte of the attributes is stored. */
  function FieldBytes(fp: FileInfo, k: nat): (s: seq<byte>)
    requires |fp.finderInfo| == 32
    ensures Settable(k) ==> forall isdir :: |s| == ParseWidth(isdir, k)
    ensures !Settable(k) ==> s == []
  {
    if k == ATTRIBUTE then [fp.attributes / 256, 0]
    else if k == CREATE_DATE then ToBE(FromUnix(fp.creationDate), 4)
    else if k == MOD_DATE then ToBE(FromUnix(fp.modificationDate), 4)
    else if k == BACKUP_DATE then ToBE(FromUnix(fp.backupDate), 4)
    else if k == FINDER_INFO then fp.finderInfo
    else if k == UNIX_PRIVS then
      ToBE(fp.unixprivs.uid, 4) + ToBE(fp.unixprivs.gid, 4) +
      ToBE(fp.unixprivs.permissions, 4) + ToBE(fp.unixprivs.uaPermissions, 4)
    else []
  }

  /** The fields of the bits below k that are set, in the order of the bits. */
  function Block(fp: FileInfo, bitmap: uint16, k: nat): (s: seq<byte>)
    requires |fp.finderInfo| == 32
  {
    if k == 0 then [] else Block(fp, bitmap, k - 1) + if Has(bitmap, k - 1) then FieldBytes(fp, k - 1) else []
  }

  /** Bits without a field in the block. */
  lemma BlockSkips(fp: FileInfo, bitmap: uint16, k: nat, l: nat)
    requires |fp.finderInfo| == 32 && k <= l && forall j :: k <= j < l ==> !Settable(j)
    ensures Block(fp, bitmap, l) == Block(fp, bitmap, k)
    decreases l
  {
    if k < l { BlockSkips(fp, bitmap, k, l - 1); }
  }

  lemma {:induction false} BlockLength(fp: FileInfo, bitmap: uint16, isdir: bool, k: nat)
    requires |fp.finderInfo| == 32 && OnlySettable(bitmap) && k <= BITS
    ensures |Block(fp, bitmap, k)| == Offset(isdir, bitmap, k)
  {
    if k > 0 { BlockLength(fp, bitmap, isdir, k - 1); }
  }

  /** Field k stands where the parser looks for it. */
  lemma {:induction false} FieldInBlock(fp: FileInfo, bitmap: uint16, isdir: bool, k: nat, l: nat)
    requires |fp.finderInfo| == 32 && OnlySettable(bitmap) && k < l <= BITS && Has(bitmap, k)
    ensures Offset(isdir, bitmap, k) + ParseWidth(isdir, k) <= |Block(fp, bitmap, l)|
    ensures Block(fp, bitmap, l)[Offset(isdir, bitmap, k)..Offset(isdir, bitmap, k) + ParseWidth(isdir, k)] ==
              FieldBytes(fp, k)
    decreases l
  {
    hide Has, Offset, FieldBytes, ParseWidth, OnlySettable;
    BlockLength(fp, bitmap, isdir, k);
    WidthOfField(fp, bitmap, isdir, k);
    var at, n, s := Offset(isdir, bitmap, k), ParseWidth(isdir, k), FieldBytes(fp, k);
    var before, last := Block(fp, bitmap, l - 1), if Has(bitmap, l - 1) then FieldBytes(fp, l - 1) else [];
    assert Block(fp, bitmap, l) == before + last;
    if k + 1 < l {
      FieldInBlock(fp, bitmap, isdir, k, l - 1);
      assert (before + last)[at..at + n] == before[at..at + n];
    } else {
      assert (before + s)[at..at + n] == s;
    }
  }

  lemma WidthOfField(fp: FileInfo, bitmap: uint16, isdir: bool, k: nat)
    requires |fp.finderInfo| == 32 && OnlySettable(bitmap) && k < BITS && Has(bitmap, k)
    ensures |FieldBytes(fp, k)| == ParseWidth(isdir, k)
  {
    hide Has;
  }

  /** Storing a field when its bit is set, p then advanced; the block starts at p0. */
  method Put(msg: array<byte>, ghost p0: nat, p: nat, selected: bool, s: seq<byte>) returns (q: nat)
    requires p0 <= p && p + |s| <= msg.Length
    modifies msg
    ensures p <= q <= p + |s| && msg[p0..q] == old(msg[p0..p]) + if selected then s else []
    ensures msg[..p0] == old(msg[..p0])
  {
    q := p;
    if selected {
      q := p + |s|;
      forall i | 0 <= i < |s| { msg[p + i] := s[i]; }
    }
  }

  /** The packing part of afp_setparms_lowlevel, from p0 on in the message buffer. */
  method PackParms(msg: array<byte>, p0: nat, bitmap: uint16, fp: FileInfo) returns (p: nat)
    requires |fp.finderInfo| == 32 && p0 + 200 <= msg.Length
    modifies msg
    ensures p0 <= p <= p0 + 62 && msg[p0..p] == Block(fp, bitmap, BITS)
    ensures msg[..p0] == old(msg[..p0])
    ensures OnlySettable(bitmap) ==> DatesPacked(msg[p0..p], bitmap, fp)
  {
    hide Has, ToBE, FromUnix, Block, FieldBytes, ParseWidth, OnlySettable, DatesPacked, Settable, Offset;
    if OnlySettable(bitmap) { BlockHoldsDates(fp, bitmap); }
    FieldsOf(fp);
    p := p0;
    BlockOfNone(fp, bitmap);
    GapsInBlock(fp, bitmap);
    BlockNext(fp, bitmap, ATTRIBUTE);
    p := Put(msg, p0, p, Has(bitmap, ATTRIBUTE), [fp.attributes / 256, 0]);
    BlockNext(fp, bitmap, CREATE_DATE);
    p := Put(msg, p0, p, Has(bitmap, CREATE_DATE), ToBE(FromUnix(fp.creationDate), 4));
    BlockNext(fp, bitmap, MOD_DATE);
    p := Put(msg, p0, p, Has(bitmap, MOD_DATE), ToBE(FromUnix(fp.modificationDate), 4));
    BlockNext(fp, bitmap, BACKUP_DATE);
    p := Put(msg, p0, p, Has(bitmap, BACKUP_DATE), ToBE(FromUnix(fp.backupDate), 4));
    BlockNext(fp, bitmap, FINDER_INFO);
    p := Put(msg, p0, p, Has(bitmap, FINDER_INFO), fp.finderInfo);
    BlockNext(fp, bitmap, UNIX_PRIVS);
    p := Put(msg, p0, p, Has(bitmap, UNIX_PRIVS),
             ToBE(fp.unixprivs.uid, 4) + ToBE(fp.unixprivs.gid, 4) +
             ToBE(fp.unixprivs.permissions, 4) + ToBE(fp.unixprivs.uaPermissions, 4));
  }

  lemma GapsInBlock(fp: FileInfo, bitmap: uint16)
    requires |fp.finderInfo| == 32
    ensures Block(fp, bitmap, CREATE_DATE) == Block(fp, bitmap, ATTRIBUTE + 1)
    ensures Block(fp, bitmap, UNIX_PRIVS) == Block(fp, bitmap, FINDER_INFO + 1)
  {
    hide Block;
    BlockSkips(fp, bitmap, ATTRIBUTE + 1, CREATE_DATE);
    BlockSkips(fp, bitmap, FINDER_INFO + 1, UNIX_PRIVS);
  }

  lemma FieldsOf(fp: FileInfo)
    requires |fp.finderInfo| == 32
    ensures FieldBytes(fp, ATTRIBUTE) == [fp.attributes / 256, 0]
    ensures FieldBytes(fp, CREATE_DATE) == ToBE(FromUnix(fp.creationDate), 4)
    ensures FieldBytes(fp, MOD_DATE) == ToBE(FromUnix(fp.modificationDate), 4)
    ensures FieldBytes(fp, BACKUP_DATE) == ToBE(FromUnix(fp.backupDate), 4)
    ensures FieldBytes(fp, FINDER_INFO) == fp.finderInfo
    ensures FieldBytes(fp, UNIX_PRIVS) == ToBE(fp.unixprivs.uid, 4) + ToBE(fp.unixprivs.gid, 4) +
                                         ToBE(fp.unixprivs.permissions, 4) + ToBE(fp.unixprivs.uaPermissions, 4)
  {
  }

  lemma BlockOfNone(fp: FileInfo, bitmap: uint16)
    requires |fp.finderInfo| == 32
    ensures Block(fp, bitmap, 0) == []
  {
  }

  lemma BlockNext(fp: FileInfo, bitmap: uint16, k: nat)
    requires |fp.finderInfo| == 32
    ensures Block(fp, bitmap, k + 1) ==
              Block(fp, bitmap, k) + if Has(bitmap, k) then FieldBytes(fp, k) else []
  {
  }

  // ---- The block that is received ----

  /** The bytes of the field of bit k in a received block, none when the bit is not set. */
  function Field(buf: seq<byte>, isdir: bool, bitmap: uint16, k: nat): (s: seq<byte>)
    requires k < BITS && Offset(isdir, bitmap, BITS) <= |buf|
    ensures |s| == if Has(bitmap, k) then ParseWidth(isdir, k) else 0
  {
    OffsetNext(isdir, bitmap, k);
    buf[Offset(isdir, bitmap, k)..Offset(isdir, bitmap, k + 1)]
  }

  /** A name: width bytes of length, then as many of its bytes as fit the caller's buffer. */
  predicate PascalFits(buf: seq<byte>, at: nat, width: nat) {
    at + width <= |buf| && at + width + Min(FromBE(buf[at..at + width]), AFP_MAX_PATH) <= |buf|
  }

  function Pascal(buf: seq<byte>, at: nat, width: nat): seq<byte>
    requires PascalFits(buf, at, width)
  {
    buf[at + width..at + width + Min(FromBE(buf[at..at + width]), AFP_MAX_PATH)]
  }

  function Min(a: nat, b: nat): nat { if a < b then a else b }

  /** Every field, and every name a field points at, lies inside the block. */
  predicate Whole(buf: seq<byte>, isdir: bool, bitmap: uint16) {
    && Offset(isdir, bitmap, BITS) <= |buf|
    && (Has(bitmap, LONG_NAME) ==> PascalFits(buf, FromBE(Field(buf, isdir, bitmap, LONG_NAME)), 1))
    && (Has(bitmap, UTF8_NAME) ==> PascalFits(buf, FromBE(Field(buf, isdir, bitmap, UTF8_NAME)[..2]) + 4, 2))
  }

  /** The name: from the UTF-8 field unless it is missing or empty, then from the long name field. */
  function Name(buf: seq<byte>, isdir: bool, bitmap: uint16): seq<byte>
    requires Whole(buf, isdir, bitmap)
  {
    var utf8 := if Has(bitmap, UTF8_NAME) then Pascal(buf, FromBE(Field(buf, isdir, bitmap, UTF8_NAME)[..2]) + 4, 2)
                else [];
    if utf8 != [] then utf8 else LongNameOf(buf, isdir, bitmap)
  }

  function LongNameOf(buf: seq<byte>, isdir: bool, bitmap: uint16): seq<byte>
    requires Whole(buf, isdir, bitmap)
  {
    if Has(bitmap, LONG_NAME) then Pascal(buf, FromBE(Field(buf, isdir, bitmap, LONG_NAME)), 1) else []
  }

  /** AD_DATE_TO_UNIX: a date field as Unix time, 0 when its bit is not set. */
  function Date(field: seq<byte>): (t: nat) {
    if field == [] then 0 else (FromBE(field) + AD_DATE_DELTA) % 0x1_0000_0000
  }

  /** The three dates of a block: Unix times for fields that count from 1 January 2000 on, zero without one. */
  predicate DatesRead(buf: seq<byte>, isdir: bool, bitmap: uint16, created: int, modified: int, backup: int)
    requires Offset(isdir, bitmap, BITS) <= |buf|
  {
    && created == (if Has(bitmap, 2) then (FromBE(Field(buf, isdir, bitmap, 2)) + 946684800) % 0x1_0000_0000 else 0)
    && modified == (if Has(bitmap, 3) then (FromBE(Field(buf, isdir, bitmap, 3)) + 946684800) % 0x1_0000_0000 else 0)
    && backup == if Has(bitmap, 4) then (FromBE(Field(buf, isdir, bitmap, 4)) + 946684800) % 0x1_0000_0000 else 0
  }

  lemma DatesAreRead(buf: seq<byte>, isdir: bool, bitmap: uint16)
    requires Offset(isdir, bitmap, BITS) <= |buf|
    ensures DatesRead(buf, isdir, bitmap, Date(Field(buf, isdir, bitmap, 2)), Date(Field(buf, isdir, bitmap, 3)),
                      Date(Field(buf, isdir, bitmap, 4)))
  {
    hide Has, Offset, Field, FromBE;
    Widths(isdir);
  }

  /** A field's bytes when its bit is set, and p2 advanced past them. */
  method Take(buf: seq<byte>, isdir: bool, bitmap: uint16, k: nat, n: nat, p2: nat) returns (s: seq<byte>, q: nat)
    requires k < BITS && Offset(isdir, bitmap, BITS) <= |buf|
    requires p2 == Offset(isdir, bitmap, k) && n == ParseWidth(isdir, k)
    ensures s == Field(buf, isdir, bitmap, k) && q == Offset(isdir, bitmap, k + 1)
    ensures n == 2 ==> FromBE(s) < 0x1_0000
    ensures n == 4 ==> FromBE(s) < 0x1_0000_0000
  {
    OffsetNext(isdir, bitmap, k);
    s, q := [], p2;
    if Has(bitmap, k) { s, q := buf[p2..p2 + n], p2 + n; }
    FromBEFits(s);
  }

  /** The fields files and directories share at the start of a block. */
  method ParseCommonFields(buf: seq<byte>, isdir: bool, bitmap: uint16) returns (filecur: FileInfo, p2: nat)
    requires Whole(buf, isdir, bitmap)
    ensures p2 == Offset(isdir, bitmap, 9)
    ensures filecur == CLEARED.(isdir := isdir, attributes := filecur.attributes, did := filecur.did,
                                creationDate := filecur.creationDate, modificationDate := filecur.modificationDate,
                                backupDate := filecur.backupDate, finderInfo := filecur.finderInfo,
                                name := filecur.name, fileId := filecur.fileId)
    ensures filecur.attributes == FromBE(Field(buf, isdir, bitmap, ATTRIBUTE))
    ensures filecur.did == FromBE(Field(buf, isdir, bitmap, PARENT_DIR_ID))
    ensures filecur.creationDate == Date(Field(buf, isdir, bitmap, CREATE_DATE))
    ensures filecur.modificationDate == Date(Field(buf, isdir, bitmap, MOD_DATE))
    ensures filecur.backupDate == Date(Field(buf, isdir, bitmap, BACKUP_DATE))
    ensures filecur.finderInfo == if Has(bitmap, FINDER_INFO) then Field(buf, isdir, bitmap, FINDER_INFO) else Zeros(32)
    ensures filecur.name == LongNameOf(buf, isdir, bitmap)
    ensures filecur.fileId == FromBE(Field(buf, isdir, bitmap, NODE_ID))
  {
    hide Has, FromBE, Offset, Pascal, PascalFits, Zeros, ParseWidth, Field;
    Widths(isdir);
    OffsetOfNone(isdir, bitmap);
    filecur := CLEARED.(isdir := isdir);
    var s;
    s, p2 := Take(buf, isdir, bitmap, ATTRIBUTE, 2, 0);
    filecur := filecur.(attributes := FromBE(s));
    s, p2 := Take(buf, isdir, bitmap, PARENT_DIR_ID, 4, p2);
    filecur := filecur.(did := FromBE(s));
    s, p2 := Take(buf, isdir, bitmap, CREATE_DATE, 4, p2);
    filecur := filecur.(creationDate := Date(s));
    s, p2 := Take(buf, isdir, bitmap, MOD_DATE, 4, p2);
    filecur := filecur.(modificationDate := Date(s));
    s, p2 := Take(buf, isdir, bitmap, BACKUP_DATE, 4, p2);
    filecur := filecur.(backupDate := Date(s));
    s, p2 := Take(buf, isdir, bitmap, FINDER_INFO, 32, p2);
    filecur := filecur.(finderInfo := if Has(bitmap, FINDER_INFO) then s else Zeros(32));
    s, p2 := Take(buf, isdir, bitmap, LONG_NAME, 2, p2);
    filecur := filecur.(name := if Has(bitmap, LONG_NAME) then Pascal(buf, FromBE(s), 1) else []);
    s, p2 := Take(buf, isdir, bitmap, SHORT_NAME, 2, p2);
    s, p2 := Take(buf, isdir, bitmap, NODE_ID, 4, p2);
    filecur := filecur.(fileId := FromBE(s));
  }

  /**
    parse_reply_block: each selected field is read at its own place, wherever the other bits put it;
    fields whose bits are not set are zero. The resource fork's length is cut to 16 bits.
   */
  method ParseReplyBlock(buf: seq<byte>, isdir: bool, fileBitmap: uint32, dirBitmap: uint32)
    returns (filecur: FileInfo, ghost bits: uint16)
    requires Whole(buf, isdir, (if isdir then dirBitmap else fileBitmap) % 0x1_0000)
    ensures bits == (if isdir then dirBitmap else fileBitmap) % 0x1_0000
    ensures filecur.isdir == isdir && filecur.name == Name(buf, isdir, bits)
    ensures filecur.attributes == FromBE(Field(buf, isdir, bits, ATTRIBUTE))
    ensures filecur.did == FromBE(Field(buf, isdir, bits, PARENT_DIR_ID))
    ensures filecur.creationDate == Date(Field(buf, isdir, bits, CREATE_DATE))
    ensures filecur.modificationDate == Date(Field(buf, isdir, bits, MOD_DATE))
    ensures filecur.backupDate == Date(Field(buf, isdir, bits, BACKUP_DATE))
    ensures DatesRead(buf, isdir, bits, filecur.creationDate, filecur.modificationDate, filecur.backupDate)
    ensures filecur.finderInfo == if Has(bits, FINDER_INFO) then Field(buf, isdir, bits, FINDER_INFO) else Zeros(32)
    ensures filecur.fileId == FromBE(Field(buf, isdir, bits, NODE_ID))
    ensures filecur.offspring == if isdir then FromBE(Field(buf, isdir, bits, OFFSPRING_COUNT)) else 0
    ensures filecur.accessRights == if isdir then FromBE(Field(buf, isdir, bits, ACCESS_RIGHTS)) else 0
    ensures filecur.size == if isdir then 0
                            else
                              var len := if Has(bits, EXT_DATA_FORK_LEN) then EXT_DATA_FORK_LEN else DATA_FORK_LEN;
                              FromBE(Field(buf, isdir, bits, len))
    ensures filecur.resourceSize == if Has(bits, EXT_RSRC_FORK_LEN)
                                    then FromBE(Field(buf, isdir, bits, EXT_RSRC_FORK_LEN)) % 0x1_0000
                                    else if isdir then 0 else FromBE(Field(buf, isdir, bits, RSRC_FORK_LEN)) % 0x1_0000
    ensures Has(bits, UNIX_PRIVS) ==> filecur.unixprivs == PrivsOf(Field(buf, isdir, bits, UNIX_PRIVS))
    ensures !Has(bits, UNIX_PRIVS) ==>
              var u := filecur.unixprivs;
              && u.permissions == 0 && u.uaPermissions == 0
              && u.uid == (if isdir then FromBE(Field(buf, isdir, bits, OWNER_ID)) else 0)
              && u.gid == (if isdir then FromBE(Field(buf, isdir, bits, GROUP_ID)) else 0)
  {
    hide Has, FromBE, Offset, Pascal, PascalFits, Zeros, ParseWidth, Field, PrivsOf, Date, DatesRead;
    Widths(isdir);
    var bitmap: uint16 := (if isdir then dirBitmap else fileBitmap) % 0x1_0000;
    bits := bitmap;
    var p2, s;
    filecur, p2 := ParseCommonFields(buf, isdir, bitmap);
    DatesAreRead(buf, isdir, bitmap);
    if isdir {
      filecur, p2 := ParseDirFields(buf, bitmap, p2, filecur);
    } else {
      filecur, p2 := ParseFileFields(buf, bitmap, p2, filecur);
    }
    s, p2 := Take(buf, isdir, bitmap, UTF8_NAME, 6, p2);
    if Has(bitmap, UTF8_NAME) {
      var name := Pascal(buf, FromBE(s[..2]) + 4, 2);
      if name != [] { filecur := filecur.(name := name); }
    }
    s, p2 := Take(buf, isdir, bitmap, EXT_RSRC_FORK_LEN, 8, p2);
    if Has(bitmap, EXT_RSRC_FORK_LEN) { filecur := filecur.(resourceSize := FromBE(s) % 0x1_0000); }
    s, p2 := Take(buf, isdir, bitmap, UNIX_PRIVS, 16, p2);
    if Has(bitmap, UNIX_PRIVS) { filecur := filecur.(unixprivs := PrivsOf(s)); }
  }

  /** The fields only directories have. */
  method ParseDirFields(buf: seq<byte>, bitmap: uint16, start: nat, fileBefore: FileInfo)
    returns (filecur: FileInfo, p2: nat)
    requires Offset(true, bitmap, BITS) <= |buf| && start == Offset(true, bitmap, OFFSPRING_COUNT)
    ensures p2 == Offset(true, bitmap, UTF8_NAME)
    ensures filecur == fileBefore.(offspring := filecur.offspring, accessRights := filecur.accessRights,
                                   unixprivs := fileBefore.unixprivs.(uid := filecur.unixprivs.uid,
                                                                      gid := filecur.unixprivs.gid))
    ensures filecur.offspring == FromBE(Field(buf, true, bitmap, OFFSPRING_COUNT))
    ensures filecur.unixprivs.uid == FromBE(Field(buf, true, bitmap, OWNER_ID))
    ensures filecur.unixprivs.gid == FromBE(Field(buf, true, bitmap, GROUP_ID))
    ensures filecur.accessRights == FromBE(Field(buf, true, bitmap, ACCESS_RIGHTS))
  {
    hide Has, FromBE, Offset, Field, ParseWidth;
    Widths(true);
    filecur := fileBefore;
    var s;
    s, p2 := Take(buf, true, bitmap, OFFSPRING_COUNT, 2, start);
    filecur := filecur.(offspring := FromBE(s));
    s, p2 := Take(buf, true, bitmap, OWNER_ID, 4, p2);
    filecur := filecur.(unixprivs := filecur.unixprivs.(uid := FromBE(s)));
    s, p2 := Take(buf, true, bitmap, GROUP_ID, 4, p2);
    filecur := filecur.(unixprivs := filecur.unixprivs.(gid := FromBE(s)));
    s, p2 := Take(buf, true, bitmap, ACCESS_RIGHTS, 4, p2);
    filecur := filecur.(accessRights := FromBE(s));
  }

  /** The fields only files have. */
  method ParseFileFields(buf: seq<byte>, bitmap: uint16, start: nat, fileBefore: FileInfo)
    returns (filecur: FileInfo, p2: nat)
    requires Offset(false, bitmap, BITS) <= |buf| && start == Offset(false, bitmap, DATA_FORK_LEN)
    ensures p2 == Offset(false, bitmap, UTF8_NAME)
    ensures filecur == fileBefore.(size := filecur.size, resourceSize := filecur.resourceSize)
    ensures var len := if Has(bitmap, EXT_DATA_FORK_LEN) then EXT_DATA_FORK_LEN else DATA_FORK_LEN;
            filecur.size == FromBE(Field(buf, false, bitmap, len))
    ensures filecur.resourceSize == FromBE(Field(buf, false, bitmap, RSRC_FORK_LEN)) % 0x1_0000
  {
    hide Has, FromBE, Offset, Field, ParseWidth;
    Widths(false);
    filecur := fileBefore;
    var s;
    s, p2 := Take(buf, false, bitmap, DATA_FORK_LEN, 4, start);
    filecur := filecur.(size := FromBE(s));
    s, p2 := Take(buf, false, bitmap, RSRC_FORK_LEN, 4, p2);
    filecur := filecur.(resourceSize := FromBE(s) % 0x1_0000);
    s, p2 := Take(buf, false, bitmap, EXT_DATA_FORK_LEN, 8, p2);
    if Has(bitmap, EXT_DATA_FORK_LEN) { filecur := filecur.(size := FromBE(s)); }
    s, p2 := Take(buf, false, bitmap, LAUNCH_LIMIT, 2, p2);
  }

  /** struct afp_unixprivs: four words in network order. */
  function PrivsOf(s: seq<byte>): Privs
    requires |s| == 16
  {
    FromBEFits(s[..4]); FromBEFits(s[4..8]); FromBEFits(s[8..12]); FromBEFits(s[12..]);
    Privs(FromBE(s[..4]), FromBE(s[4..8]), FromBE(s[8..12]), FromBE(s[12..]))
  }

  lemma Widths(isdir: bool)
    ensures ParseWidth(isdir, ATTRIBUTE) == 2 && ParseWidth(isdir, PARENT_DIR_ID) == 4
    ensures ParseWidth(isdir, CREATE_DATE) == 4 && ParseWidth(isdir, MOD_DATE) == 4
    ensures ParseWidth(isdir, BACKUP_DATE) == 4 && ParseWidth(isdir, FINDER_INFO) == 32
    ensures ParseWidth(isdir, LONG_NAME) == 2 && ParseWidth(isdir, SHORT_NAME) == 2
    ensures ParseWidth(isdir, NODE_ID) == 4 && ParseWidth(isdir, 9) == (if isdir then 2 else 4)
    ensures ParseWidth(isdir, 10) == 4 && ParseWidth(isdir, 11) == (if isdir then 4 else 8)
    ensures ParseWidth(isdir, 12) == (if isdir then 4 else 2) && ParseWidth(isdir, UTF8_NAME) == 6
    ensures ParseWidth(isdir, EXT_RSRC_FORK_LEN) == 8 && ParseWidth(isdir, UNIX_PRIVS) == 16
  {
  }

  lemma OffsetOfNone(isdir: bool, bitmap: uint16)
    ensures Offset(isdir, bitmap, 0) == 0
  {
  }

  /** The dates in a block, in seconds since 1 January 2000, for dates from then on. */
  predicate DatesPacked(block: seq<byte>, bitmap: uint16, fp: FileInfo) {
    && Offset(false, bitmap, BITS) == |block|
    && (Has(bitmap, 2) && fp.creationDate >= 946684800 ==>
          Field(block, false, bitmap, 2) == ToBE(fp.creationDate - 946684800, 4))
    && (Has(bitmap, 3) && fp.modificationDate >= 946684800 ==>
          Field(block, false, bitmap, 3) == ToBE(fp.modificationDate - 946684800, 4))
    && (Has(bitmap, 4) && fp.backupDate >= 946684800 ==>
          Field(block, false, bitmap, 4) == ToBE(fp.backupDate - 946684800, 4))
  }

  lemma BlockHoldsDates(fp: FileInfo, bitmap: uint16)
    requires |fp.finderInfo| == 32 && OnlySettable(bitmap)
    ensures DatesPacked(Block(fp, bitmap, BITS), bitmap, fp)
  {
    hide Has, ToBE, FromBE, FromUnix, Block, FieldBytes, ParseWidth, Offset, OnlySettable;
    Widths(false);
    FieldsOf(fp);
    BlockLength(fp, bitmap, false, BITS);
    forall k | 2 <= k <= 4 && Has(bitmap, k)
      ensures Field(Block(fp, bitmap, BITS), false, bitmap, k) == FieldBytes(fp, k)
    {
      FieldInBlock(fp, bitmap, false, k, BITS);
      OffsetNext(false, bitmap, k);
    }
    DatesOnTheWire(0, fp.creationDate);
    DatesOnTheWire(0, fp.modificationDate);
    DatesOnTheWire(0, fp.backupDate);
  }

  // ---- There and back ----

  /**
    Every field packed for a bitmap of settable bits comes back: Finder information, privileges and dates
    exactly, the attributes only when their low byte, which is not stored, is zero.
   */
  lemma FieldsComeBack(fp: FileInfo, bitmap: uint16, isdir: bool, k: nat)
    requires |fp.finderInfo| == 32 && OnlySettable(bitmap) && k < BITS && Has(bitmap, k)
    ensures Offset(isdir, bitmap, BITS) == |Block(fp, bitmap, BITS)|
    ensures var s := Field(Block(fp, bitmap, BITS), isdir, bitmap, k);
            && (k == CREATE_DATE ==> Date(s) == fp.creationDate)
            && (k == MOD_DATE ==> Date(s) == fp.modificationDate)
            && (k == BACKUP_DATE ==> Date(s) == fp.backupDate)
            && (k == FINDER_INFO ==> s == fp.finderInfo)
            && (k == UNIX_PRIVS ==> PrivsOf(s) == fp.unixprivs)
            && (k == ATTRIBUTE ==> FromBE(s) == fp.attributes - fp.attributes % 256)
            && (k == ATTRIBUTE ==> (FromBE(s) == fp.attributes <==> fp.attributes % 256 == 0))
  {
    hide Has, Block, Offset, ToBE, ParseWidth, PrivsOf, FromBE, FieldBytes, FromUnix, Date;
    Widths(isdir);
    FieldsOf(fp);
    BlockLength(fp, bitmap, isdir, BITS);
    FieldInBlock(fp, bitmap, isdir, k, BITS);
    OffsetNext(isdir, bitmap, k);
    DateComesBack(fp.creationDate);
    DateComesBack(fp.modificationDate);
    DateComesBack(fp.backupDate);
    PrivsComeBack(fp.unixprivs);
    if k == ATTRIBUTE { AttributesOnTheWire(fp.attributes); }
  }

  /** Both conversions wrap around at 32 bits, so every date survives. */
  lemma DateComesBack(t: uint32)
    ensures Date(ToBE(FromUnix(t), 4)) == t
  {
    hide ToBE, FromBE;
    FromBEOfToBE(FromUnix(t), 4);
  }

  lemma AttributesOnTheWire(a: uint16)
    ensures FromBE([a / 256, 0]) == a - a % 256
  {
    var s: seq<byte> := [a / 256, 0];
    assert s[..1] == [s[0]];
    assert FromBE([s[0]]) == a / 256;
  }

  lemma PrivsComeBack(u: Privs)
    ensures PrivsOf(ToBE(u.uid, 4) + ToBE(u.gid, 4) + ToBE(u.permissions, 4) + ToBE(u.uaPermissions, 4)) == u
  {
    hide ToBE, FromBE;
    FromBEOfToBE(u.uid, 4);
    FromBEOfToBE(u.gid, 4);
    FromBEOfToBE(u.permissions, 4);
    FromBEOfToBE(u.uaPermissions, 4);
    var s := ToBE(u.uid, 4) + ToBE(u.gid, 4) + ToBE(u.permissions, 4) + ToBE(u.uaPermissions, 4);
    assert s[..4] == ToBE(u.uid, 4) && s[4..8] == ToBE(u.gid, 4);
    assert s[8..12] == ToBE(u.permissions, 4) && s[12..] == ToBE(u.uaPermissions, 4);
  }

  // ---- The formats, by numbers ----

  /** A date field counts the seconds since 1 January 2000, which is 946684800 in Unix time. */
  lemma DatesOnTheWire(n: nat, t: uint32)
    ensures n < 0x1_0000_0000 ==> Date(ToBE(n, 4)) == (n + 946684800) % 0x1_0000_0000
    ensures t >= 946684800 ==> ToBE(FromUnix(t), 4) == ToBE(t - 946684800, 4)
    ensures t < 946684800 ==> ToBE(FromUnix(t), 4) == ToBE(t + 3348282496, 4)
  {
    hide ToBE, FromBE;
    if n < 0x1_0000_0000 { FromBEOfToBE(n, 4); }
  }

  function Two(k: nat): (p: nat)
    ensures p > 0
  {
    if k == 0 then 1 else 2 * Two(k - 1)
  }

  /** Bit k has the value of the k-th power of two. */
  lemma {:induction false} HasIsBit(b: uint16, k: nat) returns (hi: nat, lo: nat)
    ensures lo < Two(k) && b == (2 * hi + if Has(b, k) then 1 else 0) * Two(k) + lo
  {
    if k == 0 {
      hi, lo := b / 2, 0;
    } else {
      hi, lo := HasIsBit(b / 2, k - 1);
      Doubled(2 * hi + if Has(b, k) then 1 else 0, Two(k - 1));
      lo := 2 * lo + b % 2;
    }
  }

  lemma Doubled(m: nat, p: nat)
    ensures m * (2 * p) == 2 * (m * p)
  {
  }

  /** The bitmap with bits 0 to n - 1. */
  function Ones(n: nat): nat {
    if n == 0 then 0 else 2 * Ones(n - 1) + 1
  }

  lemma {:induction false} OnesHave(n: nat, k: nat)
    requires Ones(n) < 0x1_0000
    ensures Has(Ones(n), k) <==> k < n
  {
    if n == 0 { NoBits(k); } else if k > 0 { OnesHave(n - 1, k - 1); }
  }

  lemma {:induction false} NoBits(k: nat)
    ensures !Has(0, k)
  {
    if k > 0 { NoBits(k - 1); }
  }

  /** Where the fields of the first bits stand, in a block that has them all. */
  lemma FullOffsets(isdir: bool, n: nat, bitmap: uint16)
    requires bitmap == Ones(n) && 11 <= n <= BITS
    ensures Offset(isdir, bitmap, 0) == 0 && Offset(isdir, bitmap, 1) == 2 && Offset(isdir, bitmap, 2) == 6
    ensures Offset(isdir, bitmap, 3) == 10 && Offset(isdir, bitmap, 4) == 14 && Offset(isdir, bitmap, 5) == 18
    ensures Offset(isdir, bitmap, 6) == 50 && Offset(isdir, bitmap, 7) == 52 && Offset(isdir, bitmap, 8) == 54
    ensures Offset(isdir, bitmap, 9) == 58 && Offset(isdir, bitmap, 10) == (if isdir then 60 else 62)
    ensures Offset(isdir, bitmap, 11) == if isdir then 64 else 66
    ensures n == 11 ==> Offset(isdir, bitmap, 16) == if isdir then 64 else 66
    ensures n == 16 ==> Offset(isdir, bitmap, 12) == (if isdir then 68 else 74)
                        && Offset(isdir, bitmap, 13) == (if isdir then 72 else 76)
                        && Offset(isdir, bitmap, 14) == (if isdir then 78 else 82)
                        && Offset(isdir, bitmap, 15) == (if isdir then 86 else 90)
                        && Offset(isdir, bitmap, 16) == (if isdir then 102 else 106)
  {
    hide Has, Ones, Offset, ParseWidth;
    Widths(isdir);
    OffsetOfNone(isdir, bitmap);
    forall k | 0 <= k < BITS ensures Has(bitmap, k) <==> k < n { OnesHave(n, k); }
    OffsetNext(isdir, bitmap, 0); OffsetNext(isdir, bitmap, 1); OffsetNext(isdir, bitmap, 2);
    OffsetNext(isdir, bitmap, 3); OffsetNext(isdir, bitmap, 4); OffsetNext(isdir, bitmap, 5);
    OffsetNext(isdir, bitmap, 6); OffsetNext(isdir, bitmap, 7); OffsetNext(isdir, bitmap, 8);
    OffsetNext(isdir, bitmap, 9); OffsetNext(isdir, bitmap, 10); OffsetNext(isdir, bitmap, 11);
    OffsetNext(isdir, bitmap, 12); OffsetNext(isdir, bitmap, 13); OffsetNext(isdir, bitmap, 14);
    OffsetNext(isdir, bitmap, 15);
  }

  lemma AllBits()
    ensures Ones(16) == 0xFFFF && Ones(11) == 0x7FF
  {
    assert Ones(4) == 0xF && Ones(8) == 0xFF && Ones(11) == 0x7FF && Ones(12) == 0xFFF;
  }

  /** The long name by the bytes alone: one byte of length, and at most 768 bytes. */
  lemma LongNameBytes(buf: seq<byte>, isdir: bool, bitmap: uint16)
    requires Whole(buf, isdir, bitmap) && Has(bitmap, 6)
    ensures var at := FromBE(Field(buf, isdir, bitmap, 6));
            at + 1 <= |buf| &&
            var end := at + 1 + Min(FromBE(buf[at..at + 1]), 768);
            end <= |buf| && LongNameOf(buf, isdir, bitmap) == buf[at + 1..end]
  {
    hide Field, Has, FromBE, Offset;
  }

  /** A UTF-8 name wins if it is not empty. It stands 4 bytes behind its offset, behind two bytes of length. */
  lemma Utf8NameWins(buf: seq<byte>, isdir: bool, bitmap: uint16)
    requires Whole(buf, isdir, bitmap) && Has(bitmap, 13)
    ensures var at := FromBE(Field(buf, isdir, bitmap, 13)[..2]) + 4;
            at + 2 <= |buf| &&
            var n := FromBE(buf[at..at + 2]);
            var end := at + 2 + Min(n, 768);
            end <= |buf|
            && Name(buf, isdir, bitmap) == if n > 0 then buf[at + 2..end] else LongNameOf(buf, isdir, bitmap)
  {
    hide Field, Has, FromBE, Offset, LongNameOf;
  }

  lemma PrivsAt(buf: seq<byte>, at: nat)
    requires at + 16 <= |buf|
    ensures var u := PrivsOf(buf[at..at + 16]);
            && u.uid == FromBE(buf[at..at + 4]) && u.gid == FromBE(buf[at + 4..at + 8])
            && u.permissions == FromBE(buf[at + 8..at + 12]) && u.uaPermissions == FromBE(buf[at + 12..at + 16])
  {
    hide FromBE;
    var s := buf[at..at + 16];
    PartOf(buf, at, 0);
    PartOf(buf, at, 4);
    PartOf(buf, at, 8);
    PartOf(buf, at, 12);
    assert s[..4] == s[0..4] && s[12..] == s[12..16];
  }

  lemma PartOf(buf: seq<byte>, at: nat, i: nat)
    requires at + 16 <= |buf| && i <= 12
    ensures buf[at..at + 16][i..i + 4] == buf[at + i..at + i + 4]
  {
    var s := buf[at..at + 16];
    var a, b := s[i..i + 4], buf[at + i..at + i + 4];
    assert |a| == |b|;
    forall k | 0 <= k < 4 ensures a[k] == b[k] {
      assert s[i + k] == buf[at + (i + k)];
    }
  }

  /** A listing entry of a file with every bit set, by the bytes alone. */
  method ParseFullFile(buf: seq<byte>) returns (f: FileInfo)
    requires Whole(buf, false, 0xFFFF)
    ensures |buf| >= 106 && !f.isdir
    ensures f.attributes == FromBE(buf[0..2]) && f.did == FromBE(buf[2..6])
    ensures f.creationDate == (FromBE(buf[6..10]) + 946684800) % 0x1_0000_0000
    ensures f.modificationDate == (FromBE(buf[10..14]) + 946684800) % 0x1_0000_0000
    ensures f.backupDate == (FromBE(buf[14..18]) + 946684800) % 0x1_0000_0000
    ensures f.finderInfo == buf[18..50] && f.fileId == FromBE(buf[54..58])
    ensures f.size == FromBE(buf[66..74]) && f.resourceSize == FromBE(buf[82..90]) % 0x1_0000
    ensures var at := FromBE(buf[76..78]) + 4;
            at + 2 <= |buf| &&
            var n := FromBE(buf[at..at + 2]);
            var end := at + 2 + Min(n, 768);
            end <= |buf| && (n > 0 ==> f.name == buf[at + 2..end])
    ensures f.unixprivs.uid == FromBE(buf[90..94]) && f.unixprivs.gid == FromBE(buf[94..98])
    ensures f.unixprivs.permissions == FromBE(buf[98..102]) && f.unixprivs.uaPermissions == FromBE(buf[102..106])
    ensures f.offspring == 0 && f.accessRights == 0
  {
    hide Has, FromBE, Offset, Whole, Name, PrivsOf, Date;
    AllBits();
    FullOffsets(false, 16, 0xFFFF);
    forall k | 0 <= k < BITS ensures Has(0xFFFF, k) { OnesHave(16, k); }
    WholeIsLong(buf, false, 0xFFFF);
    Utf8NameWins(buf, false, 0xFFFF);
    PrivsAt(buf, 90);
    assert buf[76..82][..2] == buf[76..78];
    ghost var bits;
    f, bits := ParseReplyBlock(buf, false, 0xFFFF, 0);
  }

  lemma WholeIsLong(buf: seq<byte>, isdir: bool, bitmap: uint16)
    requires Whole(buf, isdir, bitmap)
    ensures Offset(isdir, bitmap, BITS) <= |buf|
  {
  }

  /** One with the bits 0 to 10, which have the lengths of the forks in 32 bits. */
  method ParseShortFile(buf: seq<byte>) returns (f: FileInfo)
    requires Whole(buf, false, 0x7FF)
    ensures |buf| >= 66
    ensures f.size == FromBE(buf[58..62]) && f.resourceSize == FromBE(buf[62..66]) % 0x1_0000
    ensures var at := FromBE(buf[50..52]);
            at + 1 <= |buf| &&
            var end := at + 1 + Min(FromBE(buf[at..at + 1]), 768);
            end <= |buf| && f.name == buf[at + 1..end]
    ensures f.unixprivs == Privs(0, 0, 0, 0)
  {
    hide Has, FromBE, Offset, Whole, LongNameOf;
    AllBits();
    FullOffsets(false, 11, 0x7FF);
    forall k | 0 <= k < BITS ensures Has(0x7FF, k) <==> k < 11 { OnesHave(11, k); }
    WholeIsLong(buf, false, 0x7FF);
    LongNameBytes(buf, false, 0x7FF);
    ghost var bits;
    f, bits := ParseReplyBlock(buf, false, 0x7FF, 0);
  }

  /** A listing entry of a directory with every bit set. */
  method ParseFullDirectory(buf: seq<byte>) returns (f: FileInfo)
    requires Whole(buf, true, 0xFFFF)
    ensures |buf| >= 102 && f.isdir
    ensures f.attributes == FromBE(buf[0..2]) && f.did == FromBE(buf[2..6])
    ensures f.creationDate == (FromBE(buf[6..10]) + 946684800) % 0x1_0000_0000
    ensures f.modificationDate == (FromBE(buf[10..14]) + 946684800) % 0x1_0000_0000
    ensures f.backupDate == (FromBE(buf[14..18]) + 946684800) % 0x1_0000_0000
    ensures f.finderInfo == buf[18..50] && f.fileId == FromBE(buf[54..58])
    ensures f.offspring == FromBE(buf[58..60]) && f.accessRights == FromBE(buf[68..72])
    ensures f.unixprivs.uid == FromBE(buf[86..90]) && f.unixprivs.gid == FromBE(buf[90..94])
    ensures f.unixprivs.permissions == FromBE(buf[94..98]) && f.unixprivs.uaPermissions == FromBE(buf[98..102])
    ensures f.size == 0 && f.resourceSize == FromBE(buf[78..86]) % 0x1_0000
  {
    hide Has, FromBE, Offset, Whole, Name, PrivsOf, Date;
    AllBits();
    FullOffsets(true, 16, 0xFFFF);
    forall k | 0 <= k < BITS ensures Has(0xFFFF, k) { OnesHave(16, k); }
    WholeIsLong(buf, true, 0xFFFF);
    PrivsAt(buf, 86);
    ghost var bits;
    f, bits := ParseReplyBlock(buf, true, 0, 0xFFFF);
  }

  /** The block that is packed for all the bits that can be set, by the bytes alone: 0x803D has the attributes,
      the three dates, the Finder information and the privileges. */
  lemma PackedBytes(fp: FileInfo)
    requires |fp.finderInfo| == 32
    requires fp.creationDate >= 946684800 && fp.modificationDate >= 946684800 && fp.backupDate >= 946684800
    ensures Block(fp, 0x803D, BITS) ==
            [fp.attributes / 0x100, 0]
            + ToBE(fp.creationDate - 946684800, 4) + ToBE(fp.modificationDate - 946684800, 4)
            + ToBE(fp.backupDate - 946684800, 4) + fp.finderInfo
            + (ToBE(fp.unixprivs.uid, 4) + ToBE(fp.unixprivs.gid, 4) +
               ToBE(fp.unixprivs.permissions, 4) + ToBE(fp.unixprivs.uaPermissions, 4))
  {
    hide Has, Block, FieldBytes, FromUnix, ToBE;
    FieldsOf(fp);
    DatesOnTheWire(0, fp.creationDate);
    DatesOnTheWire(0, fp.modificationDate);
    DatesOnTheWire(0, fp.backupDate);
    SettableBits();
    BlockOfNone(fp, 0x803D);
    BlockNext(fp, 0x803D, 0);
    BlockSkips(fp, 0x803D, 1, 2);
    BlockNext(fp, 0x803D, 2);
    BlockNext(fp, 0x803D, 3);
    BlockNext(fp, 0x803D, 4);
    BlockNext(fp, 0x803D, 5);
    BlockSkips(fp, 0x803D, 6, 15);
    BlockNext(fp, 0x803D, 15);
    var a: seq<byte> := [fp.attributes / 0x100, 0];
    assert [] + a == a;
  }

  lemma SettableBits()
    ensures Has(0x803D, 0) && Has(0x803D, 2) && Has(0x803D, 3) && Has(0x803D, 4) && Has(0x803D, 5) && Has(0x803D, 15)
  {
    assert Has(0x3D / 4, 0) && Has(0x803D / 16 / 16, 7);
  }

  /** The parameter block round trip, for every set of settable bits and either kind of object. */
  method PackThenParse(msg: array<byte>, p0: nat, bitmap: uint16, fp: FileInfo, isdir: bool) returns (filecur: FileInfo)
    requires |fp.finderInfo| == 32 && p0 + 200 <= msg.Length && OnlySettable(bitmap)
    modifies msg
    ensures Has(bitmap, CREATE_DATE) ==> filecur.creationDate == fp.creationDate
    ensures Has(bitmap, MOD_DATE) ==> filecur.modificationDate == fp.modificationDate
    ensures Has(bitmap, BACKUP_DATE) ==> filecur.backupDate == fp.backupDate
    ensures Has(bitmap, FINDER_INFO) ==> filecur.finderInfo == fp.finderInfo
    ensures Has(bitmap, UNIX_PRIVS) ==> filecur.unixprivs == fp.unixprivs
    ensures Has(bitmap, ATTRIBUTE) ==> (filecur.attributes == fp.attributes <==> fp.attributes % 256 == 0)
  {
    hide Has, Block, Offset, FromBE, PrivsOf, Date, Field, PascalFits;
    var p := PackParms(msg, p0, bitmap, fp);
    BlockLength(fp, bitmap, isdir, BITS);
    forall k | 0 <= k < BITS && Has(bitmap, k) { FieldsComeBack(fp, bitmap, isdir, k); }
    ghost var bits;
    filecur, bits := ParseReplyBlock(msg[p0..p], isdir, bitmap, bitmap);
  }
}
