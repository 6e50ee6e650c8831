# pseudoNFS client, modelled in Dafny

pseudoNFS is a Linux kernel filesystem module whose every VFS operation is a
remote call to an object server. This project models the client: the wire
types both sides share, the VFS hooks that turn each operation into one
request and turn the response into a VFS result, and `call_method`, which
carries one request over one TCP connection.

- `protocol.dfy` (module `Protocol`) holds the wire types of
  `src/shared/protocol.h`. It has the capacity constants and the fixed-size
  value types. It has the three numbered enumerations with their codes. The
  two tagged unions become datatypes with one constructor per method. The
  tag is a separate field, so "tag and variant agree" (`WellFormed`) is a
  property a message may lack.
- `client.dfy` (module `Transport`) models `call_method` of
  `src/client/client.c` imperatively.
  - A `Network` value fixes what socket creation, connect and send do, and
    a `Stream` fixes what each `kernel_recvmsg` delivers.
  - A `Socket` object plays the kernel socket. It moves through Created,
    Connected, Sent and Released and records every operation in a trace.
  - `CallMethod` is proved against the function `Call`, which states the
    whole exchange. The properties are lemmas about `Call` and its receive
    loop `ReceiveAll`.
- `pseudonfs.dfy` (module `PseudoNfs`) models the hooks of
  `src/client/pseudonfs.c`.
  - `call_method` is a parameter `call` from the request to a `Reply`: its
    return value and the response struct.
  - lookup, create, mkdir, rmdir, link and unlink are functions.
  - The loops of iterate, read, write and mount are methods with loop
    invariants. Each is proved against a function of its inputs.

Modelling notes:

- The hooks accept a reply when `call_method` returned a non-negative value,
  the status is not METHOD_STATUS_ERR, and the tag is the one sent. The code
  tests `status == METHOD_STATUS_ERR`, not `status == METHOD_STATUS_OK`, so
  a status of 0 or 3 passes. The model follows the code.
- An inode number reaches `inode->i_ino` through the `int i_ino` parameter
  of `pseudonfs_get_inode`. That keeps the low 32 bits as a signed value,
  which sign-extends back to 64 bits. The model does the same
  (`InodeNumber`): numbers below 2^31 and from 2^64 - 2^31 up survive;
  all others keep only their low 32 bits, sign-extended.
- iterate starts at `off = (uint32_t) ctxt->pos`, that is pos modulo 2^32.
  It returns that `off`, after the loop, converted to `int`.
- read and write index both the user buffer and the payload by the file
  offset. A read at offset k fills `buffer[k..length-1]`, not
  `buffer[0..length-k-1]`; a write at offset k sends only
  `buffer[k..len-1]` and zeros before it. Both are modelled as written.
- write advances `*off` before the request is sent, so the offset has moved
  even when the call fails. The model keeps this.

## Model

| member | source | states |
|---|---|---|
| Protocol.ObjectType.Code | src/shared/protocol.h:20-24 | File is 1 and Dir is 2, and each code decodes back to its type |
| Protocol.MethodType.Code | src/shared/protocol.h:45-56 | the method codes run from 1 to 9 in declaration order |
| Protocol.MethodTypeOf | src/shared/protocol.h:45-56 | a code names a method exactly when it lies in 1..9, and it names the method with that code |
| Protocol.MethodStatus.Code | src/shared/protocol.h:59-63 | Ok is 1 and Err is 2, and each decodes back |
| Protocol.MethodCodesInjective | src/shared/protocol.h:45-56 | distinct methods have distinct codes, and every code decodes to its method |
| Protocol.ZeroIsNoCode | src/shared/protocol.h:20-63 | no method, object type or status is encoded as 0 |
| Protocol.EmptyResponsesCarryNothing | src/shared/protocol.h:94-143 | the responses to link, unlink, write and rmdir carry no data: two of the same method are equal |
| Protocol.InodeResponsesCarryOnlyInode | src/shared/protocol.h:68-84 | a create or mount response is determined by its inode number alone |
| Protocol.ResponseTagDecodes | src/shared/protocol.h:176-192 | the tag of a well-formed response decodes to the method of its variant |
| Transport.RecvEventsAppend | src/client/client.c:41-55 | one more receive extends the trace by exactly its event |
| Transport.Receive | src/client/client.c:43 | one receive returns at most what it asked for; a positive result delivers that many bytes; 0 or an error delivers none; a closed stream gives 0 |
| Transport.ReceiveAll | src/client/client.c:41-55 | the receive loop never collects more bytes than the buffer holds |
| Transport.Call | src/client/client.c:3-61 | a call returns 0 or -1; a received response has sizeof(MethodResponse) bytes; success always comes with a response |
| Transport.Socket.constructor | src/client/client.c:7 | a fresh socket is Created, with an empty trace and the network's outcomes |
| Transport.Socket.Connect | src/client/client.c:13 | connect fails exactly when the network refuses; only success moves the socket to Connected; the trace gains the connect |
| Transport.Socket.SendMsg | src/client/client.c:27 | send returns the network's result and moves to Sent only when that is not negative; the trace gains the message sent |
| Transport.Socket.RecvMsg | src/client/client.c:43 | a receive writes its bytes at the current position of the buffer and leaves the rest as it was; the stream gives up those bytes; the trace gains the receipt |
| Transport.Socket.Shutdown | src/client/client.c:30 | shutdown adds itself to the trace and leaves the state |
| Transport.Socket.Release | src/client/client.c:16 | release is allowed once, on a socket not yet released, and ends in Released |
| Transport.JoinStep | src/client/client.c:43-54 | one turn of the loop: 0 stops with success, a negative result stops with failure, a positive one continues with that many fewer bytes to receive |
| Transport.FillFront | src/client/client.c:53-54 | receiving into the zeroed rest of the buffer leaves the earlier bytes, then the new bytes, then zeros |
| Transport.ReceiveMore | src/client/client.c:43-54 | one kernel_recvmsg into buffer[at..]: it asks for all that is left, and the buffer and the loop's outcome advance exactly as ReceiveAll prescribes |
| Transport.Clear | src/client/client.c:35 | the memset leaves every byte of the response buffer zero |
| Transport.ReceiveResponse | src/client/client.c:35-55 | the receive phase fails exactly when ReceiveAll does; it leaves the received bytes followed by zeros, and the trace gains one receive per turn |
| Transport.Conclude | src/client/client.c:41-60 | after the receive loop the socket is shut down and released on both exits; the result is -1 on a receive error and 0 otherwise |
| Transport.CallMethod | src/client/client.c:3-61 | the imperative call returns what Call states, the socket exists exactly when creation succeeded, and it ends Released with the trace Call states and the response buffer Call states |
| Transport.CountReleasesAppend | src/client/client.c:16-58 | releases in a joined trace add up |
| Transport.NoReleaseAmongReceives | src/client/client.c:41-55 | the receive loop releases nothing |
| Transport.ReleasedExactlyOnce | src/client/client.c:7-60 | once the socket is created, every path releases it exactly once, as its last operation; a failed creation touches no socket and returns -1 |
| Transport.EarlyFailures | src/client/client.c:13-33 | a failed connect releases without a shutdown; a failed send shuts down and releases; neither fills the buffer; the request goes out whole as one message |
| Transport.ReceiveAllEnds | src/client/client.c:41-55 | the loop receives at least once unless the buffer is full; it stops short only after a receive of 0; it fails exactly when its last receive was negative |
| Transport.ReceivesShrinkRemaining | src/client/client.c:41-55 | each receive asks for exactly what is left; no result exceeds what was asked; every receive but the last was positive and shrank what is left by its result |
| Transport.ReceiveTakesFront | src/client/client.c:43 | a positive receive takes its bytes off the front of the stream |
| Transport.ReceivedIsStreamPrefix | src/client/client.c:41-55 | the buffer receives a prefix of the bytes the peer sends, in order |
| Transport.FullStreamFillsBuffer | src/client/client.c:41-55 | a peer that sends at least as many bytes as the buffer holds, in pieces of any size, fills it with its first bytes, and the loop succeeds |
| Transport.ShortStreamEnds | src/client/client.c:41-55 | a peer that sends fewer bytes than the buffer holds, in pieces of any size, leaves all of them in the buffer; the loop fails exactly when the peer ends with a receive error rather than a close |
| Transport.TrickleBytes | src/client/client.c:41-55 | a stream of one-byte pieces carries exactly its bytes |
| Transport.TrickleFillsBuffer | src/client/client.c:41-55 | one byte per receive still fills the buffer with the peer's first bytes |
| Transport.FullReplyIsSuccess | src/client/client.c:41-60 | a peer that sends a whole response, in any pieces, makes the call return 0 with exactly its first sizeof(MethodResponse) bytes |
| Transport.TrickleCompletesCall | src/client/client.c:41-60 | a peer that sends enough bytes one at a time yields success with exactly those bytes |
| Transport.ShortReplyOutcome | src/client/client.c:44-60 | a peer that sends too few bytes, in any pieces, leaves them followed by zeros; the call returns 0 exactly when the peer closed, and -1 when it ended with a receive error |
| Transport.EarlyCloseIsSuccess | src/client/client.c:44-45 | a single short chunk followed by a close yields success with the short bytes followed by zeros |
| Transport.UnreceivedBytesAreZero | src/client/client.c:35 | every byte of the response that was not received reads as zero |
| PseudoNfs.RefusedReplies | src/client/pseudonfs.c:50-59 | a negative call_method result, an Err status or a different tag each refuse a reply; an accepted reply's tag decodes to the method sent |
| PseudoNfs.ListRequest | src/client/pseudonfs.c:47-48 | the list request is well formed, tagged List and names the directory's inode |
| PseudoNfs.ReadRequest | src/client/pseudonfs.c:81-82 | the read request is well formed, tagged Read and names the file's inode |
| PseudoNfs.WriteRequest | src/client/pseudonfs.c:115-117 | the write request is well formed, tagged Write and carries the file's inode and the payload |
| PseudoNfs.LookupRequest | src/client/pseudonfs.c:153-155 | the lookup request is well formed, tagged Lookup and carries the parent and the name |
| PseudoNfs.CreateRequest | src/client/pseudonfs.c:182-184 | the create request is well formed, tagged Create and carries the object type, the parent and the name |
| PseudoNfs.RmdirRequest | src/client/pseudonfs.c:242-244 | the rmdir request is well formed, tagged Rmdir and carries the parent and the name |
| PseudoNfs.LinkRequest | src/client/pseudonfs.c:268-270 | the link request is well formed and tagged Link; its source is the old dentry's inode, its parent the new parent and its name the new dentry's |
| PseudoNfs.UnlinkRequest | src/client/pseudonfs.c:294-296 | the unlink request is well formed, tagged Unlink and carries the parent and the name |
| PseudoNfs.InodeNumber | src/client/pseudonfs.c:328-333 | the stored number keeps the low 32 bits of the server's number, and equals it exactly when it fits a sign-extended int |
| PseudoNfs.InodeNumberTruncated | src/client/pseudonfs.c:328-333 | the numbers 2^32 and 2^31 are not kept |
| PseudoNfs.MakeInode | src/client/pseudonfs.c:328-339 | a new inode has the given mode, and any number below 2^31 unchanged |
| PseudoNfs.RootInode | src/client/pseudonfs.c:342-345 | the root inode is number 1337 and a directory |
| PseudoNfs.LookupChild | src/client/pseudonfs.c:149-175 | a lookup yields an inode only for an accepted Lookup reply, numbered from the reply, a directory exactly when the reply's type is Dir and a regular file otherwise; for a well-formed response it yields one exactly when the reply is accepted |
| PseudoNfs.CreateObject | src/client/pseudonfs.c:178-235 | an object is created only on an accepted Create reply, numbered from its inode, a directory exactly for Dir and a regular file exactly for File; for a well-formed response it is created exactly when the reply is accepted |
| PseudoNfs.CreateFile | src/client/pseudonfs.c:178-205 | create yields a regular file with permissions 0777 |
| PseudoNfs.Mkdir | src/client/pseudonfs.c:208-235 | mkdir yields a directory with permissions 0777 |
| PseudoNfs.RemoveDir | src/client/pseudonfs.c:238-261 | rmdir returns 0 exactly when its reply is accepted, and -1 otherwise |
| PseudoNfs.MakeLink | src/client/pseudonfs.c:264-287 | link returns 0 exactly when the reply to its request is accepted, and -1 otherwise |
| PseudoNfs.RemoveLink | src/client/pseudonfs.c:290-313 | unlink returns 0 exactly when its reply is accepted, and -1 otherwise |
| PseudoNfs.CreateAndMkdirDiffer | src/client/pseudonfs.c:182-227 | create and mkdir send the same parent and name and differ only in the type; on the same reply both succeed or both fail, with the same number, mode S_IFREG for create and S_IFDIR for mkdir |
| PseudoNfs.RefusedReplyFailsEveryHook | src/client/pseudonfs.c:157-307 | a failed call or an Err status makes lookup return null and every other hook fail, link included for any source inode |
| PseudoNfs.AcceptedBodies | src/client/pseudonfs.c:55-167 | an accepted well-formed List, Read, Lookup or Create reply carries the body of that method, so refusing a mismatched body refuses nothing the code's check accepts |
| PseudoNfs.ZeroedResponseRefused | src/client/pseudonfs.c:55 | a response of which nothing was received (tag 0) is refused |
| PseudoNfs.U32AsInt | src/client/pseudonfs.c:73 | the returned int agrees with the u32 modulo 2^32, and equals it below 2^31 |
| PseudoNfs.DirContext.constructor | src/client/pseudonfs.c:42 | a context starts at the given cursor with nothing emitted |
| PseudoNfs.Iterate | src/client/pseudonfs.c:42-74 | a refused reply returns -1 with the context untouched; otherwise it emits the entries from the cursor to the count in order, advances pos by one per entry and returns max(cursor, count) |
| PseudoNfs.IterateFromStart | src/client/pseudonfs.c:61-69 | from cursor 0 a listing is emitted whole, in order |
| PseudoNfs.IterateResumes | src/client/pseudonfs.c:61-69 | the entries from a cursor split at any later position into those before it and those from it on, with nothing lost or repeated |
| PseudoNfs.IterateOverrun | src/client/pseudonfs.c:61-69 | as written, a count of 33 makes the loop emit an entry read past the array |
| PseudoNfs.IterateAsWrittenAgrees | src/client/pseudonfs.c:61-69 | on counts up to 32, the as-written loop and Iterate emit the same entries |
| PseudoNfs.ReadFile | src/client/pseudonfs.c:77-105 | a refused reply returns -1 with offset and memory untouched; otherwise bytes off..length-1 go to the same positions of user memory, the count max(0, length - off) is returned and the offset moves to max(off, length) |
| PseudoNfs.ReadFromStart | src/client/pseudonfs.c:95-101 | a read from offset 0 into memory that can hold the file delivers exactly the file's content at the front and touches nothing after it |
| PseudoNfs.ReadOverrun | src/client/pseudonfs.c:96-101 | as written, a length of 1025 makes the loop copy a byte from past the payload |
| PseudoNfs.ReadAsWrittenAgrees | src/client/pseudonfs.c:96-101 | on lengths up to 1024, the as-written copy and ReadFile deliver the same bytes |
| PseudoNfs.WriteFile | src/client/pseudonfs.c:108-144 | over 1024 bytes it returns -1 before building a request; otherwise it sends a payload of length len holding buffer[off..len-1] with zeros below off, moves the offset to max(off, len) even if the call fails, and returns the count copied exactly when the reply is accepted |
| PseudoNfs.WriteFromStartSendsBuffer | src/client/pseudonfs.c:117-126 | a write from offset 0 sends exactly the buffer as content |
| PseudoNfs.WriteAtOffsetZeroesFront | src/client/pseudonfs.c:118-126 | a write at offset k leaves the payload's first k bytes zero |
| PseudoNfs.WriteThenRead | src/client/pseudonfs.c:77-144 | a buffer written from offset 0, returned unchanged by the server and read from offset 0, comes back whole |
| PseudoNfs.FirstColon | src/client/pseudonfs.c:357-363 | the scan stops at the first ':' or at the terminator, with no ':' before it |
| PseudoNfs.FirstColonUnique | src/client/pseudonfs.c:357-363 | the first ':' is the only position with no ':' before it |
| PseudoNfs.AfterMountAsWritten | src/client/pseudonfs.c:372-375 | as written, only a NULL result of mount_nodev returns null; any other pointer, an error pointer included, has the server info stored through it |
| PseudoNfs.MountFailureDereferenced | src/client/pseudonfs.c:370-375 | as written, no result mount_nodev can return is caught: an ERR_PTR failure passes the NULL test and is written through |
| PseudoNfs.MountAddress | src/client/pseudonfs.c:354-390 | with no ':' the mount returns null; a mount_nodev result other than a root dentry (NULL or an error pointer) also returns null, as intended; otherwise the server info is the string split at its first ':' |
| PseudoNfs.ParseAddressSplits | src/client/pseudonfs.c:364-383 | parsing succeeds exactly when there is a ':'; the ip is the prefix before the first ':', holds no ':', and the port is parsed from the rest |
| PseudoNfs.DecimalString | src/client/pseudonfs.c:382 | a number's decimal form is one or more digits |
| PseudoNfs.DecimalRoundTrip | src/client/pseudonfs.c:382 | a number's decimal digits read back as the number |
| PseudoNfs.PortRoundTrip | src/client/pseudonfs.c:382 | every 16-bit port written in decimal parses back to itself, with or without a trailing newline |
| PseudoNfs.AddressRoundTrip | src/client/pseudonfs.c:357-383 | mounting "ip:port", for an ip without ':', yields exactly that ip and port |
| PseudoNfs.BadPortStillMounts | src/client/pseudonfs.c:382-385 | an empty or non-numeric port is only logged: the mount succeeds without a port |

## Left out

- Kernel VFS plumbing is not modelled: `new_inode`, `inode_init_owner`, `d_add`, `d_make_root`, `register_filesystem`, `pseudonfs_kill_sb`, `pseudonfs_init` and `pseudonfs_exit`. An inode is a value (number, mode).
- A failed `new_inode` is not modelled. The code then still returns success without attaching an inode.
- MountAddress: what `mount_nodev` returns, including the failure of `d_make_root` in `pseudonfs_fill_super`, is the parameter `ret` of `MountAddress`. Its error branch is the intended null return, not the code's write through the error pointer (see Findings).
- The socket API (`sock_create_kern`, `kernel_connect`, `kernel_sendmsg`, `kernel_recvmsg`, `kernel_sock_shutdown`, `sock_release`) becomes the `Network` value. Building the server address with `in_aton` and `htons` is not modelled.
- Network input: each receive's result is fixed by a `Stream` of byte chunks ended by a close or an error, rather than by a list of integers. A receive returns at most what it asks for.
- A connect or receive that never returns is not modelled. `Stream` is finite and every socket operation returns, so `Call` describes only calls that finish; against a peer that neither sends nor closes, `call_method` blocks forever.
- A short `kernel_sendmsg` (non-negative, fewer bytes than asked) counts as success, as in the code. The model does not say what the peer makes of it.
- Byte layout is not modelled: union padding, endianness, and the encoding of the structs into the bytes `call_method` moves. `CallMethod` works on bytes; the hooks work on decoded `MethodResponse` values.
- In C the union member is read whatever the tag holds. The model's lookup, create, iterate and read only use a body whose variant matches the method sent. For well-formed responses this refuses nothing more: `AcceptedBodies`, and the `WellFormed` clauses of `LookupChild` and `CreateObject`.
- Memory management (`kmalloc`, `kfree`, the leaks on error paths) and `printk` logging are not modelled.
- User memory accesses are plain reads and writes. A `put_user` past the writable memory stores nothing, and its error is ignored as in the code. `WriteFile`'s buffer holds exactly `len` bytes.
- The `len` argument of read and the `mode` argument of create and mkdir are not consulted by the code, and the model has no such parameters.
- The value `dir_emit` returns is ignored by the code. The model records every entry the loop hands to it.
- Names sent to the server must be storable (below 256 bytes, no NUL), as the VFS guarantees for dentry names. A `strcpy` overflow is not modelled.
- A listing entry's name is the bytes before its terminator. A name of 256 bytes without a terminator, which `strlen` would overrun, is not modelled.
- The positions `ctxt->pos` of iterate and `*off` of read and write are natural numbers: a negative `loff_t` is not modelled. They are also unbounded, while the kernel's `loff_t` is 64 bits.
- A NULL mount string is not modelled. Mount strings have fewer than 65536 characters, because the 16-bit index `it` would wrap on a longer string without an early ':'.
- The mount string and `ServerInfo.ip` are `seq<char>`, one character per byte of the C string; the digits, '+', ':' and newline it looks for are single bytes. A multi-byte encoding is not modelled, and the 65536 bound counts bytes of the C string.
- `kstrtou16` is kernel library code, not part of this model. `ParsePort` states its rules for base 10: one optional '+', one or more digits, one optional trailing newline, a value of at most 65535.
- Concurrency between VFS calls is not modelled: each call is independent.

## Findings

| source | as written | input that shows it | evidently intended | confidence | as-written member | corrected member |
|---|---|---|---|---|---|---|
| src/client/pseudonfs.c:61-69 | iterate loops up to the server's 16-bit `count` and reads `objects[off]` without comparing the count with the 32-entry array | a List reply with count 33 at cursor 0: the 33rd entry is read past the array | a listing whose count exceeds MAX_OBJECTS_COUNT is refused like any other malformed reply | not executed; the overrun is certain for such a reply, and refusing it with -1 is one reasonable intent | PseudoNfs.IterateOverrun | PseudoNfs.Iterate |
| src/client/pseudonfs.c:96-101 | read loops up to the server's `data.length` and reads `data.data[*off]` without comparing the length with the 1024-byte payload | a Read reply with length 1025 at offset 0: byte 1024 is read past the payload | a payload whose length exceeds MAX_DATA_LENGTH is refused | not executed; the overrun is certain for such a reply, and refusing it with -1 is one reasonable intent | PseudoNfs.ReadOverrun | PseudoNfs.ReadFile |
| src/client/pseudonfs.c:370-375 | after `mount_nodev` the code tests `if (!ret)`, but `mount_nodev` reports failure as `ERR_PTR(err)`, never NULL, and the code then writes `ret->d_sb->s_fs_info` through that pointer | a mount whose `d_make_root` fails, so that `pseudonfs_fill_super` returns -1 and `mount_nodev` returns an error pointer | a failed `mount_nodev` ends the mount without touching its result | not executed; `mount_nodev` and `ERR_PTR` are kernel code outside this model, and the failure needs an allocation failure | PseudoNfs.MountFailureDereferenced | PseudoNfs.MountAddress |
