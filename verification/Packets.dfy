/** Request bodies: hexadecimal length fields and the sections they declare. */
module Packets {
  import opened CStrings
  import opened Numbers
  import Store

  const PKG_LEN_SIZE := 9
  const GROUP_NAME_MAX_LEN := 16

  datatype Parsed<T> = Accepted(value: T) | Refused(errno: Store.Errno)

  /** A length field: strtol on the text at that place. */
  function Field(mem: string, at: nat): int32 {
    if at <= |mem| then HexField(CStr(mem[at..])) else 0
  }

  /** A length as a client writes it: sprintf "%x" in nine bytes, the rest of them NUL. */
  function LengthField(n: nat): (f: string)
    requires n <= 0x7FFF_FFFF
    ensures |f| == PKG_LEN_SIZE
  {
    PrintHexLength(n);
    PrintHex(n) + seq(PKG_LEN_SIZE - |PrintHex(n)|, _ => NUL)
  }

  lemma DigitsFree(s: string)
    requires AllDigits(s, 16)
    ensures Free(s, NUL)
  {
    assert forall i | 0 <= i < |s| :: IsDigit(s[i], 16) && !IsDigit(NUL, 16);
  }

  /** A length field reads back, wherever it stands and whatever follows it. */
  lemma FieldOfLength(before: string, n: nat, rest: string)
    requires n <= 0x7FFF_FFFF
    ensures Field(before + LengthField(n) + rest, |before|) == n
  {
    var digits := PrintHex(n);
    PrintHexLength(n);
    var mem := before + LengthField(n) + rest;
    var pad := seq(PKG_LEN_SIZE - |digits|, _ => NUL);
    assert pad == [NUL] + pad[1..];
    assert mem[|before|..] == digits + [NUL] + (pad[1..] + rest);
    DigitsFree(digits);
    CStrOf(digits, pad[1..] + rest);
    HexFieldOfPrintHex(n, []);
    assert digits + [] == digits;
  }

  /** A group name in its fixed field. */
  function GroupField(group: string): (f: string)
    requires |group| <= GROUP_NAME_MAX_LEN
    ensures |f| == GROUP_NAME_MAX_LEN
  {
    group + seq(GROUP_NAME_MAX_LEN - |group|, _ => NUL)
  }

  lemma GroupFieldReads(group: string)
    requires |group| <= GROUP_NAME_MAX_LEN && Free(group, NUL)
    ensures CStr(GroupField(group)) == group
  {
    var f := GroupField(group);
    assert f[..|group|] == group;
    IndexOfUnique(f, NUL, |group|);
  }

  // ------------------------------------------------------------ upload

  /** Sizes an upload packet declares. */
  datatype UploadSizes = UploadSizes(meta: nat, file: nat)

  const UPLOAD_FIXED := 2 * PKG_LEN_SIZE

  /** The checks of storage_upload_file on a received packet.  The sum of the sizes is taken in
      32-bit arithmetic; beyond is whatever memory follows the packet's terminator, which the
      length fields of a packet shorter than two fields run into. */
  function ParseUpload(packet: string, beyond: string): Parsed<UploadSizes> {
    var mem := packet + [NUL] + beyond;
    if |packet| <= 0 then Refused(Store.EINVAL)
    else
      var metaBytes, fileBytes := Field(mem, 0), Field(mem, PKG_LEN_SIZE);
      if metaBytes < 0 then Refused(Store.EINVAL)
      else if fileBytes < 0 || fileBytes != Wrap32(|packet| - (UPLOAD_FIXED + metaBytes + 1)) then Refused(Store.EINVAL)
      else Accepted(UploadSizes(metaBytes, fileBytes))
  }

  /** The fixed fields, the metadata, the pad byte and the file cover the packet exactly. */
  predicate UploadTiles(packet: string, s: UploadSizes) { UPLOAD_FIXED + s.meta + 1 + s.file == |packet| }

  function UploadMeta(packet: string, s: UploadSizes): string
    requires UploadTiles(packet, s)
  {
    packet[UPLOAD_FIXED..UPLOAD_FIXED + s.meta]
  }

  function UploadData(packet: string, s: UploadSizes): string
    requires UploadTiles(packet, s)
  {
    packet[UPLOAD_FIXED + s.meta + 1..]
  }

  /** A 32-bit difference that is not negative is exact, or 2^32 too big. */
  lemma WrappedDifference(x: int, r: int)
    requires Wrap32(x) == r && 0 <= r
    requires -0x1_0000_0000 < x <= 0x7FFF_FFFF
    ensures r == x || r == x + 0x1_0000_0000
  {
  }

  lemma WrappedUp(x: int)
    requires -0x1_8000_0000 <= x < -0x8000_0000
    ensures Wrap32(x) == x + 0x1_0000_0000
  {
  }

  lemma AcceptedSizes(packet: string, beyond: string)
    requires |packet| <= 0x7FFF_FFFF
    requires ParseUpload(packet, beyond).Accepted?
    ensures var s := ParseUpload(packet, beyond).value;
            && s.meta <= 0x7FFF_FFFF && s.file <= 0x7FFF_FFFF
            && (UPLOAD_FIXED + s.meta + 1 + s.file == |packet|
                || UPLOAD_FIXED + s.meta + 1 + s.file == |packet| + 0x1_0000_0000)
  {
    hide Field, Wrap32;
    var s := ParseUpload(packet, beyond).value;
    WrappedDifference(|packet| - (UPLOAD_FIXED + s.meta + 1), s.file);
  }

  /** Which uploads are accepted, and with what sizes: those whose declared sizes are not negative and
      whose file size is what the packet leaves after two fields, metadata and pad byte, up to 2^32.
      All others are refused with EINVAL. */
  lemma UploadAccepted(packet: string, beyond: string)
    requires |packet| <= 0x7FFF_FFFF
    ensures var mem := packet + [NUL] + beyond;
            var m, f, left := Field(mem, 0), Field(mem, 9), |packet| - 19 - Field(mem, 0);
            && (ParseUpload(packet, beyond).Accepted?
                <==> packet != [] && m >= 0 && f >= 0 && (f == left || f == left + 0x1_0000_0000))
            && (ParseUpload(packet, beyond).Accepted? ==> ParseUpload(packet, beyond).value == UploadSizes(m, f))
            && (ParseUpload(packet, beyond).Refused? ==> ParseUpload(packet, beyond).errno == 22)
  {
    hide Field, Wrap32;
    var mem := packet + [NUL] + beyond;
    if Field(mem, 0) >= 0 && Field(mem, 9) >= 0 {
      WrappedEquals(|packet| - 19 - Field(mem, 0), Field(mem, 9));
    }
  }

  lemma WrappedEquals(x: int, r: int32)
    requires 0 <= r && -0x1_0000_0000 < x <= 0x7FFF_FFFF
    ensures Wrap32(x) == r <==> r == x || r == x + 0x1_0000_0000
  {
  }

  /** An accepted packet is cut into sections that tile it exactly when both of its length fields
      were part of what was received. */
  lemma UploadSections(packet: string, beyond: string)
    requires |packet| <= 0x7FFF_FFFF
    requires ParseUpload(packet, beyond).Accepted?
    ensures var s := ParseUpload(packet, beyond).value;
            && (UploadTiles(packet, s) <==> UPLOAD_FIXED <= |packet|)
            && (UploadTiles(packet, s) ==>
                  packet == packet[..UPLOAD_FIXED] + UploadMeta(packet, s)
                            + [packet[UPLOAD_FIXED + s.meta]] + UploadData(packet, s))
  {
    AcceptedSizes(packet, beyond);
    hide ParseUpload;
    var s := ParseUpload(packet, beyond).value;
    if UploadTiles(packet, s) {
      CutInFour(packet, UPLOAD_FIXED, UPLOAD_FIXED + s.meta);
    }
  }

  lemma CutInFour(packet: string, i: nat, j: nat)
    requires i <= j < |packet|
    ensures packet == packet[..i] + packet[i..j] + [packet[j]] + packet[j + 1..]
  {
  }

  /** Shorter packets do get accepted: with metadata of 2^31 - 1 bytes declared, the 32-bit sum
      wraps, and the file size it calls for may stand in memory behind the packet. */
  lemma ShortUploadAccepted() returns (packet: string, beyond: string)
    ensures |packet| < UPLOAD_FIXED && ParseUpload(packet, beyond).Accepted?
  {
    hide Field, LengthField, PrintHex, Wrap32, ParseUpload;
    packet := PrintHex(0x7FFF_FFFF);
    PrintHexLength(0x7FFF_FFFF);
    var x := |packet| - (UPLOAD_FIXED + 0x7FFF_FFFF + 1);
    var size := x + 0x1_0000_0000;
    beyond := seq(PKG_LEN_SIZE - 1 - |packet|, _ => NUL) + LengthField(size);
    FieldBehindTerminator(packet, size);
    FieldOfText(0x7FFF_FFFF, beyond);
    WrappedUp(x);
    AcceptedIf(packet, beyond, 0x7FFF_FFFF, size);
  }

  lemma AcceptedIf(packet: string, beyond: string, metaBytes: nat, fileBytes: nat)
    requires packet != []
    requires Field(packet + [NUL] + beyond, 0) == metaBytes && Field(packet + [NUL] + beyond, PKG_LEN_SIZE) == fileBytes
    requires fileBytes == Wrap32(|packet| - (UPLOAD_FIXED + metaBytes + 1))
    ensures ParseUpload(packet, beyond) == Accepted(UploadSizes(metaBytes, fileBytes))
  {
    hide Field, Wrap32;
  }

  lemma FieldBehindTerminator(packet: string, n: nat)
    requires |packet| < PKG_LEN_SIZE && n <= 0x7FFF_FFFF
    ensures Field(packet + [NUL] + (seq(PKG_LEN_SIZE - 1 - |packet|, _ => NUL) + LengthField(n)), PKG_LEN_SIZE) == n
  {
    var filler := seq(PKG_LEN_SIZE - 1 - |packet|, _ => NUL);
    FieldOfLength(packet + [NUL] + filler, n, []);
    assert packet + [NUL] + (filler + LengthField(n)) == packet + [NUL] + filler + LengthField(n) + [];
  }

  lemma FieldOfText(n: nat, rest: string)
    requires n <= 0x7FFF_FFFF
    ensures Field(PrintHex(n) + [NUL] + rest, 0) == n
  {
    var mem := PrintHex(n) + [NUL] + rest;
    DigitsFree(PrintHex(n));
    CStrOf(PrintHex(n), rest);
    HexFieldOfPrintHex(n, []);
    assert mem[0..] == mem && PrintHex(n) + [] == PrintHex(n);
  }

  function BuildUpload(meta: string, data: string): string
    requires |meta| <= 0x7FFF_FFFF && |data| <= 0x7FFF_FFFF
  {
    LengthField(|meta|) + LengthField(|data|) + meta + [NUL] + data
  }

  /** Two length fields at the start of anything. */
  lemma TwoFields(m: nat, n: nat, rest: string)
    requires m <= 0x7FFF_FFFF && n <= 0x7FFF_FFFF
    ensures var mem := LengthField(m) + LengthField(n) + rest;
            Field(mem, 0) == m && Field(mem, PKG_LEN_SIZE) == n
  {
    hide Field, LengthField;
    var first, second := LengthField(m), LengthField(n);
    assert first + second + rest == [] + first + (second + rest);
    FieldOfLength([], m, second + rest);
    FieldOfLength(first, n, rest);
  }

  /** Round trip: a packet built from any metadata and file is accepted and gives them back. */
  lemma UploadRoundTrip(meta: string, data: string, beyond: string)
    requires UPLOAD_FIXED + |meta| + 1 + |data| <= 0x7FFF_FFFF
    ensures var packet, s := BuildUpload(meta, data), UploadSizes(|meta|, |data|);
            && ParseUpload(packet, beyond) == Accepted(s)
            && UploadTiles(packet, s)
            && UploadMeta(packet, s) == meta && UploadData(packet, s) == data
  {
    hide Field, LengthField, Wrap32;
    var packet := BuildUpload(meta, data);
    var rest := meta + [NUL] + data + [NUL] + beyond;
    TwoFields(|meta|, |data|, rest);
    assert packet + [NUL] + beyond == LengthField(|meta|) + LengthField(|data|) + rest;
    assert packet == (LengthField(|meta|) + LengthField(|data|)) + (meta + [NUL] + data);
    assert packet[UPLOAD_FIXED..] == meta + [NUL] + data;
    assert packet[UPLOAD_FIXED..UPLOAD_FIXED + |meta|] == packet[UPLOAD_FIXED..][..|meta|];
    assert packet[UPLOAD_FIXED + |meta| + 1..] == packet[UPLOAD_FIXED..][|meta| + 1..];
  }

  // ------------------------------------------------------------ sync copy

  const COPY_FIXED := 2 * PKG_LEN_SIZE + GROUP_NAME_MAX_LEN
  const COPY_NAME_SIZE := 128

  datatype CopyRequest = CopyRequest(name: string, data: string)

  /** The group name in a packet, read as the handlers do: sixteen bytes and a terminator. */
  function GroupAt(packet: string, at: nat): string
    requires at + GROUP_NAME_MAX_LEN <= |packet|
  {
    CStr(packet[at..at + GROUP_NAME_MAX_LEN])
  }

  /** The checks of storage_sync_copy_file, in its order, on a received packet. */
  function ParseCopy(packet: string, group: string): Parsed<CopyRequest> {
    if |packet| <= COPY_FIXED then Refused(Store.EINVAL)
    else
      var mem := packet + [NUL];
      var nameLen, fileBytes := Field(mem, 0), Field(mem, PKG_LEN_SIZE);
      if nameLen <= 0 || nameLen >= COPY_NAME_SIZE then Refused(Store.EPIPE)
      else if fileBytes < 0 then Refused(Store.EPIPE)
      else if GroupAt(packet, 2 * PKG_LEN_SIZE) != group then Refused(Store.EINVAL)
      else if fileBytes != |packet| - (COPY_FIXED + nameLen) then Refused(Store.EPIPE)
      else Accepted(CopyRequest(packet[COPY_FIXED..COPY_FIXED + nameLen], packet[COPY_FIXED + nameLen..]))
  }

  /** Which sync packets are accepted: longer than their fixed part, for this group, with a name of 1 to
      127 bytes and a file that together with it fills the packet.  A packet too short or for another
      group is refused with EINVAL, one with wrong sizes with EPIPE. */
  lemma CopyAccepted(packet: string, group: string)
    ensures var n, f := Field(packet + [NUL], 0), Field(packet + [NUL], 9);
            && (ParseCopy(packet, group).Accepted?
                <==> && |packet| > 34 && 0 < n < 128 && 0 <= f && |packet| == 34 + n + f
                     && CStr(packet[18..34]) == group)
            && (ParseCopy(packet, group).Refused? ==>
                  ParseCopy(packet, group).errno ==
                    if |packet| <= 34 then 22
                    else if n <= 0 || n >= 128 || f < 0 then 32
                    else if CStr(packet[18..34]) != group then 22
                    else 32)
  {
    hide Field, CStr;
  }

  /** The sections of an accepted packet tile it, and have the sizes its fields declare. */
  lemma CopySections(packet: string, group: string)
    requires ParseCopy(packet, group).Accepted?
    ensures var r := ParseCopy(packet, group).value;
            && packet == packet[..2 * PKG_LEN_SIZE] + packet[2 * PKG_LEN_SIZE..COPY_FIXED] + r.name + r.data
            && |r.name| == Field(packet + [NUL], 0) && |r.data| == Field(packet + [NUL], PKG_LEN_SIZE)
            && 0 < |r.name| < COPY_NAME_SIZE
  {
    hide Field, GroupAt;
  }

  function BuildCopy(group: string, name: string, data: string): string
    requires |group| <= GROUP_NAME_MAX_LEN && |name| <= 0x7FFF_FFFF && |data| <= 0x7FFF_FFFF
  {
    LengthField(|name|) + LengthField(|data|) + GroupField(group) + name + data
  }

  lemma CopyRoundTrip(group: string, name: string, data: string)
    requires |group| <= GROUP_NAME_MAX_LEN && Free(group, NUL)
    requires 0 < |name| < COPY_NAME_SIZE && COPY_FIXED + |name| + |data| <= 0x7FFF_FFFF
    ensures ParseCopy(BuildCopy(group, name, data), group) == Accepted(CopyRequest(name, data))
  {
    hide Field, LengthField, GroupField;
    var packet := BuildCopy(group, name, data);
    var field := GroupField(group);
    TwoFields(|name|, |data|, field + name + data + [NUL]);
    assert packet + [NUL] == LengthField(|name|) + LengthField(|data|) + (field + name + data + [NUL]);
    assert packet == (LengthField(|name|) + LengthField(|data|)) + field + (name + data);
    assert packet[2 * PKG_LEN_SIZE..COPY_FIXED] == field;
    GroupFieldReads(group);
    assert packet[COPY_FIXED..] == name + data;
    assert packet[COPY_FIXED..COPY_FIXED + |name|] == packet[COPY_FIXED..][..|name|];
    assert packet[COPY_FIXED + |name|..] == packet[COPY_FIXED..][|name|..];
  }

  // ------------------------------------------------------------ set metadata

  const SET_META_FIXED := 2 * PKG_LEN_SIZE + 1 + GROUP_NAME_MAX_LEN
  const SET_META_NAME_SIZE := 32

  datatype SetMetaRequest = SetMetaRequest(flag: char, name: string, meta: string)

  /** The checks of storage_set_metadata, in its order, on a received packet. */
  function ParseSetMeta(packet: string, group: string): Parsed<SetMetaRequest> {
    if |packet| <= SET_META_FIXED then Refused(Store.EINVAL)
    else
      var mem := packet + [NUL];
      var nameLen, metaBytes, flag := Field(mem, 0), Field(mem, PKG_LEN_SIZE), packet[2 * PKG_LEN_SIZE];
      if nameLen <= 0 || nameLen >= SET_META_NAME_SIZE then Refused(Store.EINVAL)
      else if flag != 'O' && flag != 'M' then Refused(Store.EINVAL)
      else if metaBytes < 0 || metaBytes != |packet| - (SET_META_FIXED + nameLen) then Refused(Store.EINVAL)
      else if GroupAt(packet, 2 * PKG_LEN_SIZE + 1) != group then Refused(Store.EINVAL)
      else Accepted(SetMetaRequest(flag, packet[SET_META_FIXED..SET_META_FIXED + nameLen], packet[SET_META_FIXED + nameLen..]))
  }

  /** Which set-metadata packets are accepted: for this group, with flag O or M, a name of 1 to 31 bytes
      and metadata that together with it fills the packet.  All others are refused with EINVAL. */
  lemma SetMetaAccepted(packet: string, group: string)
    ensures var n, m := Field(packet + [NUL], 0), Field(packet + [NUL], 9);
            && (ParseSetMeta(packet, group).Accepted?
                <==> && |packet| > 35 && 0 < n < 32 && 0 <= m && |packet| == 35 + n + m
                     && (packet[18] == 'O' || packet[18] == 'M') && CStr(packet[19..35]) == group)
            && (ParseSetMeta(packet, group).Refused? ==> ParseSetMeta(packet, group).errno == 22)
  {
    hide Field, CStr;
  }

  lemma SetMetaSections(packet: string, group: string)
    requires ParseSetMeta(packet, group).Accepted?
    ensures var r := ParseSetMeta(packet, group).value;
            && packet == packet[..2 * PKG_LEN_SIZE] + [r.flag] + packet[2 * PKG_LEN_SIZE + 1..SET_META_FIXED] + r.name + r.meta
            && |r.name| == Field(packet + [NUL], 0) && |r.meta| == Field(packet + [NUL], PKG_LEN_SIZE)
            && 0 < |r.name| < SET_META_NAME_SIZE
  {
    hide Field, GroupAt;
  }

  function BuildSetMeta(flag: char, group: string, name: string, meta: string): string
    requires |group| <= GROUP_NAME_MAX_LEN && |name| <= 0x7FFF_FFFF && |meta| <= 0x7FFF_FFFF
  {
    LengthField(|name|) + LengthField(|meta|) + [flag] + GroupField(group) + name + meta
  }

  lemma SetMetaRoundTrip(flag: char, group: string, name: string, meta: string)
    requires |group| <= GROUP_NAME_MAX_LEN && Free(group, NUL) && (flag == 'O' || flag == 'M')
    requires 0 < |name| < SET_META_NAME_SIZE && SET_META_FIXED + |name| + |meta| <= 0x7FFF_FFFF
    ensures ParseSetMeta(BuildSetMeta(flag, group, name, meta), group) == Accepted(SetMetaRequest(flag, name, meta))
  {
    hide Field, LengthField, GroupField;
    var packet := BuildSetMeta(flag, group, name, meta);
    var field := GroupField(group);
    TwoFields(|name|, |meta|, [flag] + field + name + meta + [NUL]);
    assert packet + [NUL] == LengthField(|name|) + LengthField(|meta|) + ([flag] + field + name + meta + [NUL]);
    assert packet == (LengthField(|name|) + LengthField(|meta|)) + [flag] + field + (name + meta);
    assert packet[2 * PKG_LEN_SIZE + 1..SET_META_FIXED] == field;
    GroupFieldReads(group);
    assert packet[SET_META_FIXED..] == name + meta;
    assert packet[SET_META_FIXED..SET_META_FIXED + |name|] == packet[SET_META_FIXED..][..|name|];
    assert packet[SET_META_FIXED + |name|..] == packet[SET_META_FIXED..][|name|..];
  }

  // ------------------------------------------------------------ delete

  const NAME_PACKET_SIZE := GROUP_NAME_MAX_LEN + 32

  /** The checks of storage_delete_file and storage_sync_delete_file: a group and a name. */
  function ParseName(packet: string, group: string): Parsed<string> {
    if |packet| <= GROUP_NAME_MAX_LEN || |packet| >= NAME_PACKET_SIZE then Refused(Store.EINVAL)
    else if GroupAt(packet, 0) != group then Refused(Store.EINVAL)
    else Accepted(CStr(packet[GROUP_NAME_MAX_LEN..]))
  }

  /** Which delete packets are accepted, and for what name: 17 to 47 bytes, for this group.  All others
      are refused with EINVAL. */
  lemma NameAccepted(packet: string, group: string)
    ensures ParseName(packet, group).Accepted? <==> 16 < |packet| < 48 && CStr(packet[..16]) == group
    ensures ParseName(packet, group).Accepted? ==> ParseName(packet, group).value == CStr(packet[16..])
    ensures ParseName(packet, group).Refused? ==> ParseName(packet, group).errno == 22
  {
    hide CStr;
    assert |packet| >= 16 ==> packet[0..16] == packet[..16];
  }

  lemma NameRoundTrip(group: string, name: string)
    requires |group| <= GROUP_NAME_MAX_LEN && Free(group, NUL) && Free(name, NUL)
    requires 0 < |name| < NAME_PACKET_SIZE - GROUP_NAME_MAX_LEN
    ensures ParseName(GroupField(group) + name, group) == Accepted(name)
  {
    hide GroupField;
    var packet := GroupField(group) + name;
    GroupFieldReads(group);
    assert packet[0..GROUP_NAME_MAX_LEN] == GroupField(group);
    assert packet[GROUP_NAME_MAX_LEN..] == name;
    CStrOf(name, []);
  }
}
