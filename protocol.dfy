/**
 * Wire types shared by the pseudoNFS client and its object server
 * (src/shared/protocol.h): the capacity constants, the fixed-size value
 * types, the three numbered enumerations and the tagged request/response
 * unions. A union becomes a datatype with one constructor per method;
 * the tag that travels beside it is kept as a separate field so that
 * "tag and variant agree" is a property a message may or may not have.
 */
module Protocol {

  datatype Option<T> = None | Some(value: T)

  // Integer widths of the C fields (LP64: unsigned long is 64 bits).
  type byte = x: int | 0 <= x < 0x100
  type u16 = x: int | 0 <= x < 0x1_0000
  type u32 = x: int | 0 <= x < 0x1_0000_0000
  type i32 = x: int | -0x8000_0000 <= x < 0x8000_0000
  type u64 = x: int | 0 <= x < 0x1_0000_0000_0000_0000

  const ROOT_DIR_INODE_N: u64 := 1337
  const MAX_NAME_SIZE: nat := 256
  const MAX_OBJECTS_COUNT: nat := 32
  const MAX_DATA_LENGTH: nat := 1024

  /** sizeof(MethodRequest) and sizeof(MethodResponse) on an LP64 target:
      the request union is as large as WriteRequest (8 + 4 + 1024, padded
      to 1040) behind a padded 4-byte tag; the response union is as large
      as ListResponse (8 + 32 * 272) behind the status and the tag. */
  const REQUEST_SIZE: nat := 8 + 1040
  const RESPONSE_SIZE: nat := 8 + 8 + MAX_OBJECTS_COUNT * (16 + MAX_NAME_SIZE)

  /** The fixed 1024-byte buffer of a Data payload. */
  type Payload = s: seq<byte> | |s| == MAX_DATA_LENGTH witness seq(MAX_DATA_LENGTH, _ => 0)

  /** A name fits a 256-byte char array together with its terminator, and
      strcpy copies it whole only if it holds no NUL of its own. */
  predicate StorableName(name: seq<byte>)
  {
    |name| < MAX_NAME_SIZE && 0 !in name
  }

  /** Data: a length and the 1024-byte buffer; only bytes[..length] are content. */
  datatype Data = Data(length: i32, bytes: Payload)
  {
    predicate Valid()
    {
      0 <= length <= MAX_DATA_LENGTH
    }

    function Contents(): (s: seq<byte>)
      requires Valid()
      ensures |s| == length
      ensures forall i :: 0 <= i < length ==> s[i] == bytes[i]
    {
      bytes[..length]
    }
  }

  datatype ObjectType = File | Dir
  {
    /** The enumerator's value: OBJECT_TYPE_FILE = 1, OBJECT_TYPE_DIR = 2. */
    function Code(): (c: u32)
      ensures ObjectTypeOf(c) == Some(this)
    {
      match this
      case File => 1
      case Dir => 2
    }
  }

  /** Decoding of an object-type code; every other value names no enumerator. */
  function ObjectTypeOf(code: u32): Option<ObjectType>
  {
    if code == 1 then Some(File)
    else if code == 2 then Some(Dir)
    else None
  }

  datatype MethodType = Create | Link | Unlink | Read | Write | List | Rmdir | Lookup | Mount
  {
    /** METHOD_TYPE_CREATE = 1 up to METHOD_TYPE_MOUNT = 9, in declaration order. */
    function Code(): (c: u32)
      ensures 1 <= c <= |METHOD_TYPES|
      ensures METHOD_TYPES[c - 1] == this
    {
      match this
      case Create => 1
      case Link => 2
      case Unlink => 3
      case Read => 4
      case Write => 5
      case List => 6
      case Rmdir => 7
      case Lookup => 8
      case Mount => 9
    }
  }

  /** The enumerators of MethodType in the order of their declaration. */
  const METHOD_TYPES: seq<MethodType> :=
    [Create, Link, Unlink, Read, Write, List, Rmdir, Lookup, Mount]

  function MethodTypeOf(code: u32): (m: Option<MethodType>)
    ensures m.Some? <==> 1 <= code <= |METHOD_TYPES|
    ensures m.Some? ==> m.value.Code() == code
  {
    if 1 <= code <= |METHOD_TYPES| then Some(METHOD_TYPES[code - 1]) else None
  }

  datatype MethodStatus = Ok | Err
  {
    /** METHOD_STATUS_OK = 1, METHOD_STATUS_ERR = 2. */
    function Code(): (c: u32)
      ensures MethodStatusOf(c) == Some(this)
    {
      match this
      case Ok => 1
      case Err => 2
    }
  }

  function MethodStatusOf(code: u32): Option<MethodStatus>
  {
    if code == 1 then Some(Ok)
    else if code == 2 then Some(Err)
    else None
  }

  /** An object as the server describes it. The type is the raw code the
      server sent, since the client holds whatever arrived in that field. */
  datatype ObjectInfo = ObjectInfo(kind: u32, inode: u64)

  /** One directory entry; `name` is the string in front of the terminator. */
  datatype Object = Object(info: ObjectInfo, name: seq<byte>)

  /** The fixed array of 32 entries in a listing. */
  type ObjectArray = s: seq<Object> | |s| == MAX_OBJECTS_COUNT
    witness seq(MAX_OBJECTS_COUNT, _ => Object(ObjectInfo(0, 0), []))

  /** A listing: an unsigned short count and the 32-entry array. */
  datatype Objects = Objects(count: u16, objects: ObjectArray)
  {
    predicate Valid()
    {
      && count <= MAX_OBJECTS_COUNT
      && forall i :: 0 <= i < count ==> StorableName(objects[i].name)
    }

    /** The meaningful entries, objects[0..count-1]. */
    function Entries(): (s: seq<Object>)
      requires Valid()
      ensures |s| == count <= MAX_OBJECTS_COUNT
      ensures forall i :: 0 <= i < count ==> s[i] == objects[i]
    {
      objects[..count]
    }
  }

  /** The request variants, one per method (MountRequest is empty). */
  datatype RequestBody =
    | CreateReq(kind: ObjectType, parent: u64, name: seq<byte>)
    | LinkReq(source: u64, parent: u64, name: seq<byte>)
    | UnlinkReq(parent: u64, name: seq<byte>)
    | ReadReq(inode: u64)
    | WriteReq(inode: u64, data: Data)
    | ListReq(inode: u64)
    | RmdirReq(parent: u64, name: seq<byte>)
    | LookupReq(parent: u64, name: seq<byte>)
    | MountReq
  {
    /** The method whose union member this variant is. */
    function Method(): MethodType
    {
      match this
      case CreateReq(_, _, _) => Create
      case LinkReq(_, _, _) => Link
      case UnlinkReq(_, _) => Unlink
      case ReadReq(_) => Read
      case WriteReq(_, _) => Write
      case ListReq(_) => List
      case RmdirReq(_, _) => Rmdir
      case LookupReq(_, _) => Lookup
      case MountReq => Mount
    }

    /** Every name fits its buffer and every payload its capacity. */
    predicate Valid()
    {
      match this
      case CreateReq(_, _, name) => StorableName(name)
      case LinkReq(_, _, name) => StorableName(name)
      case UnlinkReq(_, name) => StorableName(name)
      case WriteReq(_, data) => data.Valid()
      case RmdirReq(_, name) => StorableName(name)
      case LookupReq(_, name) => StorableName(name)
      case _ => true
    }
  }

  datatype MethodRequest = MethodRequest(tag: MethodType, body: RequestBody)
  {
    predicate WellFormed()
    {
      tag == body.Method() && body.Valid()
    }
  }

  /** The response variants. Link, Unlink, Write and Rmdir carry nothing;
      Create and Mount carry only an inode number. */
  datatype ResponseBody =
    | CreateResp(inode: u64)
    | LinkResp
    | UnlinkResp
    | ReadResp(data: Data)
    | WriteResp
    | ListResp(objects: Objects)
    | RmdirResp
    | LookupResp(info: ObjectInfo)
    | MountResp(inode: u64)
  {
    function Method(): MethodType
    {
      match this
      case CreateResp(_) => Create
      case LinkResp => Link
      case UnlinkResp => Unlink
      case ReadResp(_) => Read
      case WriteResp => Write
      case ListResp(_) => List
      case RmdirResp => Rmdir
      case LookupResp(_) => Lookup
      case MountResp(_) => Mount
    }

    predicate Valid()
    {
      match this
      case ReadResp(data) => data.Valid()
      case ListResp(objects) => objects.Valid()
      case _ => true
    }
  }

  /** A response as the client holds it after the receive: status and tag
      are the raw 32-bit values in the buffer (zero where nothing arrived). */
  datatype MethodResponse = MethodResponse(status: u32, tag: u32, body: ResponseBody)
  {
    /** The tag names the union member that is filled. */
    predicate WellFormed()
    {
      tag == body.Method().Code()
    }
  }

  // ---------------------------------------------------------------------
  // Properties of the encodings

  /** Distinct methods have distinct codes, and a code decodes back. */
  lemma MethodCodesInjective(a: MethodType, b: MethodType)
    ensures a.Code() == b.Code() <==> a == b
    ensures MethodTypeOf(a.Code()) == Some(a)
  {
  }

  /** No method, object type or status is encoded as 0, the value of a
      field of the zeroed response buffer that nothing was received into. */
  lemma ZeroIsNoCode(m: MethodType, t: ObjectType, s: MethodStatus)
    ensures m.Code() != 0 && t.Code() != 0 && s.Code() != 0
  {
  }

  /** A well-formed message's tag determines its variant: a response to
      Link, Unlink, Write or Rmdir is the one empty variant of that method. */
  lemma EmptyResponsesCarryNothing(r1: ResponseBody, r2: ResponseBody)
    requires r1.Method() == r2.Method()
    requires r1.Method() in {Link, Unlink, Write, Rmdir}
    ensures r1 == r2
  {
  }

  /** A Create or Mount response is determined by its inode number alone. */
  lemma InodeResponsesCarryOnlyInode(r1: ResponseBody, r2: ResponseBody)
    requires r1.Method() == r2.Method()
    requires r1.CreateResp? || r1.MountResp?
    requires r1.inode == r2.inode
    ensures r1 == r2
  {
  }

  /** A well-formed response's tag decodes to the method of its variant. */
  lemma ResponseTagDecodes(r: MethodResponse)
    requires r.WellFormed()
    ensures MethodTypeOf(r.tag) == Some(r.body.Method())
  {
  }
}
