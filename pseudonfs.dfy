/**
 * The VFS hooks of src/client/pseudonfs.c. Each hook builds one request,
 * hands it to call_method and accepts the reply only when call_method
 * succeeded, the status is not METHOD_STATUS_ERR and the tag is the one
 * it sent; it then turns the response into what the VFS expects.
 *
 * call_method is a parameter `call` from the request to the reply it
 * produces (its return value and the response struct). Kernel objects
 * become plain values: an inode is its number and mode, a directory
 * context is its cursor and the entries handed to dir_emit, user memory
 * is a byte array or sequence.
 */
module PseudoNfs {
  import opened Protocol

  // Mode bits: S_IFDIR 0040000, S_IFREG 0100000 and the permissions 0777.
  const S_IFDIR: nat := 0x4000
  const S_IFREG: nat := 0x8000
  const ALL_PERMISSIONS: nat := 0x1FF
  const DIR_MODE: nat := S_IFDIR + ALL_PERMISSIONS
  const REG_MODE: nat := S_IFREG + ALL_PERMISSIONS

  /** The file-type field of a mode (mode & S_IFMT). */
  function FileType(mode: nat): nat { mode / 0x1000 % 0x10 * 0x1000 }

  predicate IsDir(mode: nat) { FileType(mode) == S_IFDIR }
  predicate IsReg(mode: nat) { FileType(mode) == S_IFREG }

  /** What call_method leaves behind: its return value and the response. */
  datatype Reply = Reply(ret: int, resp: MethodResponse)

  /** The test every hook applies to a reply before using it. */
  predicate Accepted(reply: Reply, sent: MethodType)
  {
    && reply.ret >= 0
    && reply.resp.status != Err.Code()
    && reply.resp.tag == sent.Code()
  }

  /** Each of the three ways a reply is refused makes it refused. */
  lemma RefusedReplies(reply: Reply, sent: MethodType)
    ensures reply.ret < 0 ==> !Accepted(reply, sent)
    ensures reply.resp.status == Err.Code() ==> !Accepted(reply, sent)
    ensures reply.resp.tag != sent.Code() ==> !Accepted(reply, sent)
    ensures Accepted(reply, sent) ==> MethodTypeOf(reply.resp.tag) == Some(sent)
  {
  }

  // ---------------------------------------------------------------------
  // Requests

  function ListRequest(dir: u64): (r: MethodRequest)
    ensures r.WellFormed() && r.tag == List && r.body.inode == dir
  {
    MethodRequest(List, ListReq(dir))
  }

  function ReadRequest(file: u64): (r: MethodRequest)
    ensures r.WellFormed() && r.tag == Read && r.body.inode == file
  {
    MethodRequest(Read, ReadReq(file))
  }

  function WriteRequest(file: u64, data: Data): (r: MethodRequest)
    requires data.Valid()
    ensures r.WellFormed() && r.tag == Write && r.body.inode == file && r.body.data == data
  {
    MethodRequest(Write, WriteReq(file, data))
  }

  function LookupRequest(parent: u64, name: seq<byte>): (r: MethodRequest)
    requires StorableName(name)
    ensures r.WellFormed() && r.tag == Lookup && r.body.parent == parent && r.body.name == name
  {
    MethodRequest(Lookup, LookupReq(parent, name))
  }

  /** create and mkdir both send this request; only `kind` tells them apart. */
  function CreateRequest(kind: ObjectType, parent: u64, name: seq<byte>): (r: MethodRequest)
    requires StorableName(name)
    ensures r.WellFormed() && r.tag == Create
    ensures r.body.kind == kind && r.body.parent == parent && r.body.name == name
  {
    MethodRequest(Create, CreateReq(kind, parent, name))
  }

  function RmdirRequest(parent: u64, name: seq<byte>): (r: MethodRequest)
    requires StorableName(name)
    ensures r.WellFormed() && r.tag == Rmdir && r.body.parent == parent && r.body.name == name
  {
    MethodRequest(Rmdir, RmdirReq(parent, name))
  }

  /** The source is the inode of the old dentry, the parent the directory
      of the new link, the name that of the new dentry. */
  function LinkRequest(source: u64, parent: u64, newName: seq<byte>): (r: MethodRequest)
    requires StorableName(newName)
    ensures r.WellFormed() && r.tag == Link
    ensures r.body.source == source && r.body.parent == parent && r.body.name == newName
  {
    MethodRequest(Link, LinkReq(source, parent, newName))
  }

  function UnlinkRequest(parent: u64, name: seq<byte>): (r: MethodRequest)
    requires StorableName(name)
    ensures r.WellFormed() && r.tag == Unlink && r.body.parent == parent && r.body.name == name
  {
    MethodRequest(Unlink, UnlinkReq(parent, name))
  }

  // ---------------------------------------------------------------------
  // Inodes

  /** An inode as the hooks create it: its number and its mode. */
  datatype Inode = Inode(ino: u64, mode: nat)

  /** The number pseudonfs_get_inode stores: the 64-bit number passes
      through its `int i_ino` parameter (the low 32 bits, read as two's
      complement) and is widened back to unsigned long, which sign extends
      it. */
  function InodeNumber(n: u64): (r: u64)
    ensures r % 0x1_0000_0000 == n % 0x1_0000_0000
    ensures r == n <==> n < 0x8000_0000 || n >= 0xFFFF_FFFF_8000_0000
  {
    var low := n % 0x1_0000_0000;
    if low < 0x8000_0000 then low else low + 0xFFFF_FFFF_0000_0000
  }

  /** Two server inode numbers the conversion does not keep. */
  lemma InodeNumberTruncated()
    ensures InodeNumber(0x1_0000_0000) == 0
    ensures InodeNumber(0x8000_0000) == 0xFFFF_FFFF_8000_0000
  {
  }

  /** pseudonfs_get_inode: a fresh inode of the given mode and number. */
  function MakeInode(mode: nat, n: u64): (i: Inode)
    ensures i.mode == mode
    ensures n < 0x8000_0000 ==> i.ino == n
  {
    Inode(InodeNumber(n), mode)
  }

  /** The root inode pseudonfs_fill_super creates. */
  function RootInode(): (i: Inode)
    ensures i.ino == ROOT_DIR_INODE_N && IsDir(i.mode)
  {
    MakeInode(DIR_MODE, ROOT_DIR_INODE_N)
  }

  // ---------------------------------------------------------------------
  // lookup, create, mkdir, rmdir, link, unlink

  /** pseudonfs_lookup: Some(inode) for the dentry with an inode attached,
      None for the null dentry. */
  function LookupChild(parent: u64, name: seq<byte>, call: MethodRequest -> Reply): (r: Option<Inode>)
    requires StorableName(name)
    ensures var reply := call(LookupRequest(parent, name));
      r.Some? ==> (
        && Accepted(reply, Lookup) && reply.resp.body.LookupResp?
        && r.value.ino == InodeNumber(reply.resp.body.info.inode)
        && (IsDir(r.value.mode) <==> reply.resp.body.info.kind == Dir.Code())
        && (IsReg(r.value.mode) <==> reply.resp.body.info.kind != Dir.Code()))
    ensures var reply := call(LookupRequest(parent, name));
      reply.resp.WellFormed() ==> (r.Some? <==> Accepted(reply, Lookup))
  {
    var reply := call(LookupRequest(parent, name));
    if Accepted(reply, Lookup) && reply.resp.body.LookupResp? then
      var info := reply.resp.body.info;
      Some(MakeInode(if info.kind == Dir.Code() then DIR_MODE else REG_MODE, info.inode))
    else None
  }

  /** What create and mkdir share: a Create request of the given kind, and
      on acceptance an inode with the returned number. */
  function CreateObject(kind: ObjectType, parent: u64, name: seq<byte>, call: MethodRequest -> Reply): (r: Option<Inode>)
    requires StorableName(name)
    ensures var reply := call(CreateRequest(kind, parent, name));
      r.Some? ==> (
        && Accepted(reply, Create) && reply.resp.body.CreateResp?
        && r.value.ino == InodeNumber(reply.resp.body.inode)
        && (IsDir(r.value.mode) <==> kind == Dir)
        && (IsReg(r.value.mode) <==> kind == File))
    ensures var reply := call(CreateRequest(kind, parent, name));
      reply.resp.WellFormed() ==> (r.Some? <==> Accepted(reply, Create))
  {
    var reply := call(CreateRequest(kind, parent, name));
    if Accepted(reply, Create) && reply.resp.body.CreateResp? then
      Some(MakeInode(if kind == Dir then DIR_MODE else REG_MODE, reply.resp.body.inode))
    else None
  }

  /** pseudonfs_create: 0 and an inode when Some, -1 when None. */
  function CreateFile(parent: u64, name: seq<byte>, call: MethodRequest -> Reply): (r: Option<Inode>)
    requires StorableName(name)
    ensures r.Some? ==> IsReg(r.value.mode) && r.value.mode % 0x1000 == ALL_PERMISSIONS
  {
    CreateObject(File, parent, name, call)
  }

  /** pseudonfs_mkdir. */
  function Mkdir(parent: u64, name: seq<byte>, call: MethodRequest -> Reply): (r: Option<Inode>)
    requires StorableName(name)
    ensures r.Some? ==> IsDir(r.value.mode) && r.value.mode % 0x1000 == ALL_PERMISSIONS
  {
    CreateObject(Dir, parent, name, call)
  }

  /** The int a hook returns for an accepted or refused reply. */
  function Status(accepted: bool): int
  {
    if accepted then 0 else -1
  }

  /** pseudonfs_rmdir. */
  function RemoveDir(parent: u64, name: seq<byte>, call: MethodRequest -> Reply): (r: int)
    requires StorableName(name)
    ensures r == 0 || r == -1
    ensures r == 0 <==> Accepted(call(RmdirRequest(parent, name)), Rmdir)
  {
    Status(Accepted(call(RmdirRequest(parent, name)), Rmdir))
  }

  /** pseudonfs_link: `source` is the inode of old_dentry. */
  function MakeLink(source: u64, parent: u64, newName: seq<byte>, call: MethodRequest -> Reply): (r: int)
    requires StorableName(newName)
    ensures r == 0 || r == -1
    ensures r == 0 <==> Accepted(call(LinkRequest(source, parent, newName)), Link)
  {
    Status(Accepted(call(LinkRequest(source, parent, newName)), Link))
  }

  /** pseudonfs_unlink. */
  function RemoveLink(parent: u64, name: seq<byte>, call: MethodRequest -> Reply): (r: int)
    requires StorableName(name)
    ensures r == 0 || r == -1
    ensures r == 0 <==> Accepted(call(UnlinkRequest(parent, name)), Unlink)
  {
    Status(Accepted(call(UnlinkRequest(parent, name)), Unlink))
  }

  /** create and mkdir send the same parent and name and differ only in the
      object type; given the same reply they yield the same inode number,
      a regular file for create and a directory for mkdir. */
  lemma CreateAndMkdirDiffer(parent: u64, name: seq<byte>, call: MethodRequest -> Reply)
    requires StorableName(name)
    requires call(CreateRequest(File, parent, name)) == call(CreateRequest(Dir, parent, name))
    ensures CreateRequest(File, parent, name).body == CreateRequest(Dir, parent, name).body.(kind := File)
    ensures CreateFile(parent, name, call).Some? <==> Mkdir(parent, name, call).Some?
    ensures CreateFile(parent, name, call).Some? ==>
      && CreateFile(parent, name, call).value.ino == Mkdir(parent, name, call).value.ino
      && CreateFile(parent, name, call).value.mode == REG_MODE
      && Mkdir(parent, name, call).value.mode == DIR_MODE
  {
  }

  /** A reply a hook refuses makes every hook fail, whatever it carries. */
  lemma RefusedReplyFailsEveryHook(source: u64, parent: u64, name: seq<byte>, reply: Reply)
    requires StorableName(name)
    requires reply.ret < 0 || reply.resp.status == Err.Code()
    ensures var call := (_: MethodRequest) => reply;
      && LookupChild(parent, name, call) == None
      && CreateFile(parent, name, call) == None
      && Mkdir(parent, name, call) == None
      && RemoveDir(parent, name, call) == -1
      && MakeLink(source, parent, name, call) == -1
      && RemoveLink(parent, name, call) == -1
  {
  }

  /** A response that is all zeros (nothing received) is refused by every
      hook, since no method is encoded as 0. */
  lemma ZeroedResponseRefused(sent: MethodType, body: ResponseBody)
    ensures !Accepted(Reply(0, MethodResponse(0, 0, body)), sent)
  {
  }

  /** An accepted well-formed reply carries the body of the method sent,
      so the hooks' test of the body variant refuses nothing more than
      the code's check does. */
  lemma AcceptedBodies(reply: Reply)
    requires reply.resp.WellFormed()
    ensures Accepted(reply, List) ==> reply.resp.body.ListResp?
    ensures Accepted(reply, Read) ==> reply.resp.body.ReadResp?
    ensures Accepted(reply, Lookup) ==> reply.resp.body.LookupResp?
    ensures Accepted(reply, Create) ==> reply.resp.body.CreateResp?
  {
    MethodCodesInjective(reply.resp.body.Method(), List);
    MethodCodesInjective(reply.resp.body.Method(), Read);
    MethodCodesInjective(reply.resp.body.Method(), Lookup);
    MethodCodesInjective(reply.resp.body.Method(), Create);
  }

  // ---------------------------------------------------------------------
  // iterate

  datatype DType = DtDir | DtReg

  /** One dir_emit call: the name, the inode number and the entry type. */
  datatype DirEntry = DirEntry(name: seq<byte>, ino: u64, dtype: DType)

  function EntryOf(o: Object): (e: DirEntry)
    ensures e.name == o.name && e.ino == o.info.inode
    ensures e.dtype == DtDir <==> o.info.kind == Dir.Code()
  {
    DirEntry(o.name, o.info.inode, if o.info.kind == Dir.Code() then DtDir else DtReg)
  }

  /** The entries of objects[from..count-1], in listing order. */
  function Emitted(objects: ObjectArray, from: nat, count: nat): (es: seq<DirEntry>)
    requires count <= MAX_OBJECTS_COUNT
    ensures |es| == (if from < count then count - from else 0)
    ensures forall j :: 0 <= j < |es| ==> es[j] == EntryOf(objects[from + j])
  {
    if from < count then seq(count - from, j requires 0 <= j < count - from => EntryOf(objects[from + j]))
    else []
  }

  /** A u32 returned as int, as two's complement. */
  function U32AsInt(x: u32): (r: i32)
    ensures r % 0x1_0000_0000 == x
    ensures x < 0x8000_0000 ==> r == x
  {
    if x < 0x8000_0000 then x else x - 0x1_0000_0000
  }

  /** The directory context: the cursor and the entries emitted so far. */
  class DirContext {
    var pos: nat
    var emitted: seq<DirEntry>

    constructor (pos: nat)
      ensures this.pos == pos && emitted == []
    {
      this.pos := pos;
      emitted := [];
    }
  }

  /** pseudonfs_iterate, refusing a listing whose count exceeds the array. */
  method Iterate(dir: u64, ctxt: DirContext, call: MethodRequest -> Reply) returns (ret: int)
    modifies ctxt
    ensures var reply := call(ListRequest(dir));
      if !(Accepted(reply, List) && reply.resp.body.ListResp?
           && reply.resp.body.objects.count <= MAX_OBJECTS_COUNT)
      then ret == -1 && ctxt.pos == old(ctxt.pos) && ctxt.emitted == old(ctxt.emitted)
      else
        var objs := reply.resp.body.objects;
        var off := old(ctxt.pos) % 0x1_0000_0000;
        var es := Emitted(objs.objects, off, objs.count);
        && ctxt.emitted == old(ctxt.emitted) + es
        && ctxt.pos == old(ctxt.pos) + |es|
        && ret == U32AsInt(if off < objs.count then objs.count else off)
  {
    var reply := call(ListRequest(dir));
    if !Accepted(reply, List) || !reply.resp.body.ListResp? {
      return -1;
    }
    var objs := reply.resp.body.objects;
    if objs.count > MAX_OBJECTS_COUNT {
      return -1;
    }
    var off: u32 := ctxt.pos % 0x1_0000_0000;
    ghost var start := off;
    while off < objs.count
      invariant start <= off && (start < objs.count ==> off <= objs.count)
      invariant start >= objs.count ==> off == start && ctxt.emitted == old(ctxt.emitted)
      invariant start < objs.count ==> ctxt.emitted == old(ctxt.emitted) + Emitted(objs.objects, start, off)
      invariant ctxt.pos == old(ctxt.pos) + (off - start)
      decreases objs.count - off
    {
      var obj := objs.objects[off];
      assert Emitted(objs.objects, start, off + 1) == Emitted(objs.objects, start, off) + [EntryOf(obj)];
      ctxt.emitted := ctxt.emitted + [EntryOf(obj)];
      off := off + 1;
      ctxt.pos := ctxt.pos + 1;
    }
    ret := U32AsInt(off);
  }

  /** Iterating from the start of a listing emits the whole listing. */
  lemma IterateFromStart(objs: Objects)
    requires objs.Valid()
    ensures |Emitted(objs.objects, 0, objs.count)| == |objs.Entries()|
    ensures forall j :: 0 <= j < objs.count ==> Emitted(objs.objects, 0, objs.count)[j] == EntryOf(objs.Entries()[j])
  {
  }

  /** The entries from a cursor split at any later position b into those
      before b and those from b on, with nothing lost or repeated, so the
      listing from a cursor is the listing from any later cursor preceded
      by the entries in between. */
  lemma IterateResumes(objects: ObjectArray, a: nat, b: nat, count: nat)
    requires a <= b <= count <= MAX_OBJECTS_COUNT
    ensures Emitted(objects, a, b) + Emitted(objects, b, count) == Emitted(objects, a, count)
  {
  }

  /** The entries iterate emits as written: for from <= i < count it reads
      objects[i], which for i >= 32 is memory past the array, given here
      as `past(i - 32)`. */
  function IterateAsWritten(objs: Objects, from: nat, past: nat -> Object): (es: seq<DirEntry>)
    ensures |es| == (if from < objs.count then objs.count - from else 0)
    ensures forall j :: 0 <= j < |es| && from + j < MAX_OBJECTS_COUNT ==> es[j] == EntryOf(objs.objects[from + j])
  {
    if from < objs.count then
      seq(objs.count - from, j requires 0 <= j < objs.count - from =>
        EntryOf(if from + j < MAX_OBJECTS_COUNT then objs.objects[from + j] else past(from + j - MAX_OBJECTS_COUNT)))
    else []
  }

  /** A listing that claims 33 entries makes the as-written loop emit an
      entry read from past the array. */
  lemma IterateOverrun(objs: Objects, past: nat -> Object)
    requires objs.count == MAX_OBJECTS_COUNT + 1
    ensures |IterateAsWritten(objs, 0, past)| == 33
    ensures IterateAsWritten(objs, 0, past)[32] == EntryOf(past(0))
  {
  }

  /** On every listing whose count fits the array the as-written loop and
      the corrected one emit the same entries. */
  lemma IterateAsWrittenAgrees(objs: Objects, from: nat, past: nat -> Object)
    requires objs.count <= MAX_OBJECTS_COUNT
    ensures IterateAsWritten(objs, from, past) == Emitted(objs.objects, from, objs.count)
  {
  }

  // ---------------------------------------------------------------------
  // read

  /** User memory after the read loop: positions off..length-1 receive the
      response bytes at the same positions, the rest keep their contents
      (a put_user past the writable memory faults and stores nothing). */
  function Delivered(mem: seq<byte>, bytes: Payload, off: nat, length: int): (m: seq<byte>)
    requires length <= MAX_DATA_LENGTH
    ensures |m| == |mem|
  {
    seq(|mem|, i requires 0 <= i < |mem| => if off <= i < length then bytes[i] else mem[i])
  }

  /** pseudonfs_read into the writable user memory `user`, with the file
      offset `off`; the requested length is not consulted. A payload
      longer than its buffer is refused. Returns the count and the new
      offset. */
  method ReadFile(file: u64, user: array<byte>, off: nat, call: MethodRequest -> Reply)
      returns (ret: int, newOff: nat)
    modifies user
    ensures var reply := call(ReadRequest(file));
      if !(Accepted(reply, Read) && reply.resp.body.ReadResp?
           && reply.resp.body.data.length <= MAX_DATA_LENGTH)
      then ret == -1 && newOff == off && user[..] == old(user[..])
      else
        var d := reply.resp.body.data;
        && ret == (if off < d.length then d.length - off else 0)
        && newOff == (if off < d.length then d.length else off)
        && user[..] == Delivered(old(user[..]), d.bytes, off, d.length)
  {
    var reply := call(ReadRequest(file));
    if !Accepted(reply, Read) || !reply.resp.body.ReadResp? {
      return -1, off;
    }
    var d := reply.resp.body.data;
    if d.length > MAX_DATA_LENGTH {
      return -1, off;
    }
    ret := 0;
    newOff := off;
    while newOff < d.length
      invariant off <= newOff && (off < d.length ==> newOff <= d.length)
      invariant off >= d.length ==> newOff == off
      invariant ret == newOff - off
      invariant forall j :: 0 <= j < user.Length ==>
        user[j] == (if off <= j < newOff && j < d.length then d.bytes[j] else old(user[j]))
      decreases d.length - newOff
    {
      if newOff < user.Length {
        user[newOff] := d.bytes[newOff];
      }
      ret := ret + 1;
      newOff := newOff + 1;
    }
    assert user[..] == Delivered(old(user[..]), d.bytes, off, d.length);
  }

  /** Reading a file from offset 0 into memory that can hold it delivers
      exactly the file's content at the front of the memory. */
  lemma ReadFromStart(mem: seq<byte>, d: Data)
    requires d.Valid() && d.length <= |mem|
    ensures Delivered(mem, d.bytes, 0, d.length)[..d.length] == d.Contents()
    ensures Delivered(mem, d.bytes, 0, d.length)[d.length..] == mem[d.length..]
  {
  }

  /** The bytes the read loop delivers as written: for off <= i < length it
      reads data[i], which for i >= 1024 is memory past the payload,
      given here as `past(i - 1024)`. */
  function ReadAsWritten(d: Data, off: nat, past: nat -> byte): (s: seq<byte>)
    ensures |s| == (if off < d.length then d.length - off else 0)
    ensures forall j :: 0 <= j < |s| && off + j < MAX_DATA_LENGTH ==> s[j] == d.bytes[off + j]
  {
    if off < d.length then
      seq(d.length - off, j requires 0 <= j < d.length - off =>
        if off + j < MAX_DATA_LENGTH then d.bytes[off + j] else past(off + j - MAX_DATA_LENGTH))
    else []
  }

  /** A payload that claims 1025 bytes makes the as-written loop copy a
      byte from past the payload. */
  lemma ReadOverrun(d: Data, past: nat -> byte)
    requires d.length == MAX_DATA_LENGTH + 1
    ensures |ReadAsWritten(d, 0, past)| == 1025
    ensures ReadAsWritten(d, 0, past)[1024] == past(0)
  {
  }

  /** On every payload that fits its buffer the as-written loop delivers
      what the corrected one does. */
  lemma ReadAsWrittenAgrees(mem: seq<byte>, d: Data, off: nat, past: nat -> byte)
    requires d.Valid() && d.length <= |mem|
    ensures off <= d.length ==> Delivered(mem, d.bytes, off, d.length)[off..d.length] == ReadAsWritten(d, off, past)
  {
  }

  // ---------------------------------------------------------------------
  // write

  /** The payload the write loop assembles from user memory `buffer` of
      len = |buffer| bytes: data[i] = buffer[i] for off <= i < len, zero
      elsewhere. */
  function WritePayload(buffer: seq<byte>, off: nat): (p: Payload)
    requires |buffer| <= MAX_DATA_LENGTH
  {
    seq(MAX_DATA_LENGTH, i requires 0 <= i < MAX_DATA_LENGTH => if off <= i < |buffer| then buffer[i] else 0)
  }

  /** pseudonfs_write of len = |buffer| bytes at file offset `off`. The
      offset advances before the request is sent, so it has advanced even
      when the call fails. */
  method WriteFile(file: u64, buffer: seq<byte>, off: nat, call: MethodRequest -> Reply)
      returns (ret: int, newOff: nat)
    ensures |buffer| > MAX_DATA_LENGTH ==> ret == -1 && newOff == off
    ensures |buffer| <= MAX_DATA_LENGTH ==>
      && newOff == (if off < |buffer| then |buffer| else off)
      && ret == (if Accepted(call(WriteRequest(file, Data(|buffer|, WritePayload(buffer, off)))), Write)
                 then newOff - off else -1)
  {
    if |buffer| > MAX_DATA_LENGTH {
      return -1, off;
    }
    var data := new byte[MAX_DATA_LENGTH](_ => 0);
    var count := 0;
    newOff := off;
    while newOff < |buffer|
      invariant off <= newOff && (off < |buffer| ==> newOff <= |buffer|)
      invariant off >= |buffer| ==> newOff == off
      invariant count == newOff - off
      invariant forall j :: 0 <= j < MAX_DATA_LENGTH ==>
        data[j] == (if off <= j < newOff && j < |buffer| then buffer[j] else 0)
      decreases |buffer| - newOff
    {
      data[newOff] := buffer[newOff];
      count := count + 1;
      newOff := newOff + 1;
    }
    assert data[..] == WritePayload(buffer, off);
    var reply := call(WriteRequest(file, Data(|buffer|, data[..])));
    if !Accepted(reply, Write) {
      return -1, newOff;
    }
    ret := count;
  }

  /** A write from offset 0 sends exactly the buffer as the file's content. */
  lemma WriteFromStartSendsBuffer(buffer: seq<byte>)
    requires |buffer| <= MAX_DATA_LENGTH
    ensures Data(|buffer|, WritePayload(buffer, 0)).Contents() == buffer
  {
    assert Data(|buffer|, WritePayload(buffer, 0)).Contents() == WritePayload(buffer, 0)[..|buffer|];
  }

  /** A write at offset k leaves the first k bytes of the payload zero. */
  lemma WriteAtOffsetZeroesFront(buffer: seq<byte>, off: nat, i: nat)
    requires |buffer| <= MAX_DATA_LENGTH && i < off && i < MAX_DATA_LENGTH
    ensures WritePayload(buffer, off)[i] == 0
  {
  }

  /** Write then read: a buffer written from offset 0 to a server that keeps
      the payload it was sent and returns it on a read comes back whole
      when read from offset 0 into memory that can hold it. */
  lemma WriteThenRead(buffer: seq<byte>, mem: seq<byte>)
    requires |buffer| <= MAX_DATA_LENGTH && |buffer| <= |mem|
    ensures Delivered(mem, WritePayload(buffer, 0), 0, |buffer|)[..|buffer|] == buffer
  {
    var d := Data(|buffer|, WritePayload(buffer, 0));
    ReadFromStart(mem, d);
    WriteFromStartSendsBuffer(buffer);
  }

  // ---------------------------------------------------------------------
  // mount

  /** The ServerInfo record: the ip string and the port, None when
      kstrtou16 refused the port text and left the field unset. */
  datatype ServerInfo = ServerInfo(ip: seq<char>, port: Option<u16>)

  /** The character at index i of a C string, with its terminator at |s|. */
  function CharAt(s: seq<char>, i: nat): char
  {
    if i < |s| then s[i] else '\0'
  }

  /** The index of the first ':' of s, or |s| if there is none. */
  function FirstColon(s: seq<char>): (k: nat)
    ensures k <= |s| && ':' !in s[..k]
    ensures k < |s| ==> s[k] == ':'
  {
    if s == [] || s[0] == ':' then 0
    else
      var k := FirstColon(s[1..]);
      assert s[..k + 1] == [s[0]] + s[1..][..k];
      k + 1
  }

  predicate IsDigit(c: char) { '0' <= c <= '9' }

  function DigitValue(c: char): nat
    requires IsDigit(c)
  {
    c as int - '0' as int
  }

  predicate AllDigits(s: seq<char>)
  {
    forall i :: 0 <= i < |s| ==> IsDigit(s[i])
  }

  /** The value of a string of decimal digits. */
  function DecimalValue(s: seq<char>): nat
    requires AllDigits(s)
  {
    if s == [] then 0 else DecimalValue(s[..|s| - 1]) * 10 + DigitValue(s[|s| - 1])
  }

  /** kstrtou16(s, 10, &port): an optional '+', one or more decimal digits,
      an optional trailing newline, and a value that fits 16 bits. */
  function ParsePort(s: seq<char>): Option<u16>
  {
    var digits := DropNewline(DropPlus(s));
    if |digits| > 0 && AllDigits(digits) && DecimalValue(digits) < 0x1_0000
    then Some(DecimalValue(digits))
    else None
  }

  /** kstrtoull skips one leading '+'. */
  function DropPlus(s: seq<char>): seq<char>
  {
    if |s| > 0 && s[0] == '+' then s[1..] else s
  }

  /** After the digits, kstrtoull accepts one '\n' before the terminator. */
  function DropNewline(s: seq<char>): seq<char>
  {
    if |s| > 0 && s[|s| - 1] == '\n' then s[..|s| - 1] else s
  }

  /** "ip:port" split at the first ':'. */
  function ParseAddress(addr: seq<char>): (r: Option<ServerInfo>)
  {
    var k := FirstColon(addr);
    if k == |addr| then None else Some(ServerInfo(addr[..k], ParsePort(addr[k + 1..])))
  }

  /** A dentry pointer as pseudonfs_mount sees it: NULL, the root dentry
      of a mounted superblock, or ERR_PTR(err) for a negative errno. */
  datatype DentryPtr = Null | Root | ErrPtr(err: int)

  /** mount_nodev returns the root dentry, or ERR_PTR(err) when sget or
      pseudonfs_fill_super fails; it never returns NULL. */
  predicate MountNodevResult(ret: DentryPtr)
  {
    ret.Root? || (ret.ErrPtr? && -4095 <= ret.err < 0)
  }

  /** What pseudonfs_mount does with mount_nodev's result: return NULL, or
      store the server info through `ret->d_sb`. */
  datatype AfterMount = ReturnNull | StoreInfo(through: DentryPtr)

  /** The code as written tests `!ret`, which catches NULL only. */
  function AfterMountAsWritten(ret: DentryPtr): (a: AfterMount)
    ensures a == ReturnNull <==> ret.Null?
    ensures a.StoreInfo? ==> a.through == ret
  {
    if ret.Null? then ReturnNull else StoreInfo(ret)
  }

  /** As written, no failure of mount_nodev is caught: an error pointer
      passes the NULL test and the code then writes through it. A root
      dentry is used as intended. */
  lemma MountFailureDereferenced(ret: DentryPtr)
    requires MountNodevResult(ret)
    ensures AfterMountAsWritten(ret) != ReturnNull
    ensures ret.ErrPtr? ==> AfterMountAsWritten(ret) == StoreInfo(ErrPtr(ret.err))
    ensures ret.Root? ==> AfterMountAsWritten(ret) == StoreInfo(Root)
  {
  }

  /** pseudonfs_mount on the C string `addr`, with `ret` what mount_nodev
      returned. A NULL or error pointer ends the mount with NULL, as the
      test after mount_nodev evidently intends; only a root dentry gets its
      server info. `it` is a uint16_t, so the string is shorter than 65536
      characters. */
  method MountAddress(addr: seq<char>, ret: DentryPtr) returns (r: Option<ServerInfo>)
    requires |addr| < 0x1_0000 && '\0' !in addr
    ensures r == (if ret.Root? then ParseAddress(addr) else None)
  {
    var it: u16 := 0;
    while CharAt(addr, it) != '\0'
      invariant it <= |addr| && ':' !in addr[..it]
      decreases |addr| - it
    {
      if addr[it] == ':' {
        break;
      }
      assert addr[..it + 1] == addr[..it] + [addr[it]];
      it := it + 1;
    }
    assert FirstColon(addr) == it by {
      FirstColonUnique(addr, it);
    }
    if CharAt(addr, it) == '\0' {
      return None;
    }
    if !ret.Root? {
      return None;
    }
    var ip := addr[..it];
    var port := ParsePort(addr[it + 1..]);
    r := Some(ServerInfo(ip, port));
  }

  /** The first ':' is the only candidate with no ':' before it. */
  lemma FirstColonUnique(s: seq<char>, k: nat)
    requires k <= |s| && ':' !in s[..k] && (k < |s| ==> s[k] == ':')
    ensures FirstColon(s) == k
  {
  }

  /** Mount fails exactly when there is no ':'; otherwise the ip is what
      precedes the first ':' and the port is parsed from what follows. */
  lemma ParseAddressSplits(addr: seq<char>)
    ensures ParseAddress(addr).Some? <==> ':' in addr
    ensures ParseAddress(addr).Some? ==>
      var info := ParseAddress(addr).value;
      && ':' !in info.ip
      && addr == info.ip + [':'] + addr[|info.ip| + 1..]
      && info.port == ParsePort(addr[|info.ip| + 1..])
  {
    var k := FirstColon(addr);
    if k == |addr| {
      assert addr[..k] == addr;
    } else {
      assert addr == addr[..k] + [':'] + addr[k + 1..];
    }
  }

  /** The decimal digits of n, most significant first. */
  function DecimalString(n: nat): (s: seq<char>)
    ensures |s| > 0 && AllDigits(s)
  {
    var d := ['0' + (n % 10) as char];
    if n < 10 then d else DecimalString(n / 10) + d
  }

  lemma {:induction false} DecimalRoundTrip(n: nat)
    ensures DecimalValue(DecimalString(n)) == n
  {
    var s := DecimalString(n);
    if n >= 10 {
      DecimalRoundTrip(n / 10);
      assert s[..|s| - 1] == DecimalString(n / 10);
    }
  }

  /** A port written in decimal parses back to itself, with or without a
      trailing newline. */
  lemma PortRoundTrip(port: u16)
    ensures ParsePort(DecimalString(port)) == Some(port)
    ensures ParsePort(DecimalString(port) + ['\n']) == Some(port)
  {
    DecimalRoundTrip(port);
    var s := DecimalString(port);
    assert (s + ['\n'])[..|s|] == s;
  }

  /** Mounting "ip:port" for an ip without ':' yields that ip and port. */
  lemma AddressRoundTrip(ip: seq<char>, port: u16)
    requires ':' !in ip
    ensures ParseAddress(ip + [':'] + DecimalString(port)) == Some(ServerInfo(ip, Some(port)))
  {
    var addr := ip + [':'] + DecimalString(port);
    FirstColonUnique(addr, |ip|);
    assert addr[..|ip|] == ip;
    assert addr[|ip| + 1..] == DecimalString(port);
    PortRoundTrip(port);
  }

  /** A bad port is only logged: the mount still succeeds, without a port. */
  lemma BadPortStillMounts(ip: seq<char>)
    requires ':' !in ip
    ensures ParseAddress(ip + [':']) == Some(ServerInfo(ip, None))
    ensures ParseAddress(ip + [':', 'x']) == Some(ServerInfo(ip, None))
  {
    FirstColonUnique(ip + [':'], |ip|);
    assert (ip + [':'])[..|ip|] == ip;
    assert (ip + [':'])[|ip| + 1..] == [];
    FirstColonUnique(ip + [':', 'x'], |ip|);
    assert (ip + [':', 'x'])[..|ip|] == ip;
    assert (ip + [':', 'x'])[|ip| + 1..] == ['x'];
    assert !AllDigits(['x']) by {
      assert !IsDigit(['x'][0]);
    }
  }
}
