/** Splitting a session file into newline-terminated records, and hashing it up to exact
    boundaries, both from reads of arbitrary sizes. The hash is a parameter: nothing is assumed
    of it here. A running hasher is the bytes it has absorbed. */
module SessionFraming {
  import opened Options
  import opened Bytes
  import opened Collections

  /** The complete lines of a file, each with its newline. */
  function Lines(s: seq<byte>): seq<seq<byte>> {
    if s == [] then []
    else
      var front := s[..|s| - 1];
      if s[|s| - 1] == NEWLINE then Lines(front) + [Tail(front) + [NEWLINE]] else Lines(front)
  }

  /** What follows the last newline. */
  function Tail(s: seq<byte>): seq<byte> {
    if s == [] then []
    else
      var last := s[|s| - 1];
      if last == NEWLINE then [] else Tail(s[..|s| - 1]) + [last]
  }

  ghost predicate IsLine(line: seq<byte>) {
    && line != [] && line[|line| - 1] == NEWLINE
    && forall i :: 0 <= i < |line| - 1 ==> line[i] != NEWLINE
  }

  lemma PushByte(s: seq<byte>, b: byte)
    ensures b == NEWLINE ==> Lines(s + [b]) == Lines(s) + [Tail(s) + [NEWLINE]] && Tail(s + [b]) == []
    ensures b != NEWLINE ==> Lines(s + [b]) == Lines(s) && Tail(s + [b]) == Tail(s) + [b]
  {
    assert (s + [b])[..|s|] == s;
  }

  lemma {:induction false} PushPlain(s: seq<byte>, more: seq<byte>)
    requires NEWLINE !in more
    ensures Lines(s + more) == Lines(s) && Tail(s + more) == Tail(s) + more
  {
    if more == [] {
      assert s + more == s;
    } else {
      var last := |more| - 1;
      PushPlain(s, more[..last]);
      PushByte(s + more[..last], more[last]);
      assert s + more == (s + more[..last]) + [more[last]];
    }
  }

  ghost predicate Framed(s: seq<byte>, lines: seq<seq<byte>>, tail: seq<byte>) {
    && Concat(lines) + tail == s
    && (forall i :: 0 <= i < |lines| ==> IsLine(lines[i]))
    && NEWLINE !in tail
  }

  lemma FramedLine(s: seq<byte>, lines: seq<seq<byte>>, tail: seq<byte>)
    requires Framed(s, lines, tail)
    ensures Framed(s + [NEWLINE], lines + [tail + [NEWLINE]], [])
  {
    var line := tail + [NEWLINE];
    assert IsLine(line);
    ConcatPush(lines, line);
    hide IsLine, Concat;
    assert Concat(lines) + line == Concat(lines) + tail + [NEWLINE];
    assert Concat(lines + [line]) + [] == Concat(lines + [line]);
  }

  lemma FramedPlain(s: seq<byte>, lines: seq<seq<byte>>, tail: seq<byte>, b: byte)
    requires Framed(s, lines, tail) && b != NEWLINE
    ensures Framed(s + [b], lines, tail + [b])
  {
    hide IsLine, Concat;
    assert Concat(lines) + (tail + [b]) == Concat(lines) + tail + [b];
  }

  /** Framing loses nothing and cuts exactly after every newline. */
  lemma {:induction false} FramingIsExact(s: seq<byte>)
    ensures Framed(s, Lines(s), Tail(s))
  {
    if s == [] {
      assert Lines(s) == [] && Tail(s) == [];
      hide Lines, Tail;
    } else {
      hide Lines, Tail, Framed;
      var front, b := s[..|s| - 1], s[|s| - 1];
      FramingIsExact(front);
      PushByte(front, b);
      assert s == front + [b];
      if b == NEWLINE {
        FramedLine(front, Lines(front), Tail(front));
      } else {
        FramedPlain(front, Lines(front), Tail(front), b);
      }
    }
  }

  /** Appending to a file that ends between records keeps its records and adds those of the suffix. */
  lemma {:induction false} LinesOfAppend(prefix: seq<byte>, suffix: seq<byte>)
    requires Tail(prefix) == []
    ensures Lines(prefix + suffix) == Lines(prefix) + Lines(suffix)
    ensures Tail(prefix + suffix) == Tail(suffix)
  {
    if suffix == [] {
      assert prefix + suffix == prefix;
    } else {
      var front, b := suffix[..|suffix| - 1], suffix[|suffix| - 1];
      LinesOfAppend(prefix, front);
      assert prefix + suffix == (prefix + front) + [b];
      assert suffix == front + [b];
      PushByte(prefix + front, b);
      PushByte(front, b);
    }
  }

  /** The complete part of a file ends between records, and holds all of its records. */
  lemma CompletePart(s: seq<byte>)
    ensures |Tail(s)| <= |s|
    ensures var complete := s[..|s| - |Tail(s)|]; Tail(complete) == [] && Lines(complete) == Lines(s)
    ensures |Concat(Lines(s))| == |s| - |Tail(s)|
  {
    FramingIsExact(s);
    var complete := s[..|s| - |Tail(s)|];
    assert complete == Concat(Lines(s));
    assert s == complete + Tail(s);
    PushPlain(complete, Tail(s));
  }

  // ---------------------------------------------------------------- digests at boundaries

  datatype FileDigests = FileDigests(version: string, suffix: string, prefix: string, previousPrefix: string)

  function After(s: seq<byte>, offset: nat): seq<byte> {
    if offset < |s| then s[offset..] else []
  }

  lemma AfterAppend(s: seq<byte>, more: seq<byte>, offset: nat)
    ensures After(s + more, offset) ==
            After(s, offset) + if offset < |s| then more else After(more, offset - |s|)
  {}

  function DigestsOf(hash: seq<byte> -> string, file: seq<byte>, suffixOffset: nat, checkpointOffset: nat): Option<FileDigests> {
    if suffixOffset <= checkpointOffset <= |file|
    then Some(FileDigests(hash(file), hash(After(file, suffixOffset)), hash(file[..checkpointOffset]), hash(file[..suffixOffset])))
    else None
  }

  /** The digest noted at a boundary once that many bytes, or the end of the file, have been seen. */
  ghost predicate NotedUpTo(hash: seq<byte> -> string, seen: seq<byte>, started: bool, boundary: nat, noted: Option<string>) {
    noted == if started && boundary <= |seen| then Some(hash(seen[..boundary])) else None
  }

  /** Absorbs the current bytes up to a boundary that lies within them, and notes the hash there.
      Before this read `before` had been absorbed; by now `full` has, up to `bytes[start]`. */
  method NoteBoundary(hash: seq<byte> -> string, full: seq<byte>, bytes: seq<byte>, start: nat, boundary: nat,
                      noted: Option<string>, offset: nat, ghost before: seq<byte>, ghost started: bool)
    returns (full': seq<byte>, start': nat, noted': Option<string>)
    requires offset == |before| && start <= |bytes| && full == before + bytes[..start]
    requires NotedUpTo(hash, before, started, boundary, noted)
    requires offset + start <= boundary || start == 0
    requires !started ==> before == []
    ensures start <= start' <= |bytes| && full' == before + bytes[..start']
    ensures boundary < offset + start' ==> start' == start
    ensures NotedUpTo(hash, before + bytes, true, boundary, noted')
  {
    full', start', noted' := full, start, noted;
    if noted.None? && boundary <= offset + |bytes| {
      start' := boundary - offset;
      full' := full + bytes[start..start'];
      assert full' == (before + bytes)[..boundary];
      noted' := Some(hash(full'));
    } else if noted.Some? {
      assert before[..boundary] == (before + bytes)[..boundary];
    }
  }

  /** The state of the pass: what the two hashers have absorbed, and the digests noted so far. */
  datatype Hashing = Hashing(full: seq<byte>, suffix: seq<byte>, previous: Option<string>, checkpoint: Option<string>, hashed: nat)

  ghost predicate HashedUpTo(hash: seq<byte> -> string, seen: seq<byte>, started: bool, suffixOffset: nat, checkpointOffset: nat, h: Hashing) {
    && h.full == seen && h.suffix == After(seen, suffixOffset) && h.hashed == |h.full| + |h.suffix|
    && NotedUpTo(hash, seen, started, suffixOffset, h.previous)
    && NotedUpTo(hash, seen, started, checkpointOffset, h.checkpoint)
  }

  /** One read; the empty read is the end of the file. */
  method Absorb(hash: seq<byte> -> string, h: Hashing, bytes: seq<byte>, suffixOffset: nat, checkpointOffset: nat, ghost started: bool)
    returns (h': Hashing)
    requires suffixOffset <= checkpointOffset
    requires HashedUpTo(hash, h.full, started, suffixOffset, checkpointOffset, h)
    requires !started ==> h.full == []
    ensures HashedUpTo(hash, h.full + bytes, true, suffixOffset, checkpointOffset, h')
  {
    hide NotedUpTo;
    var offset := |h.full|;
    var end := offset + |bytes|;
    var full, start, suffix := h.full, 0, h.suffix;
    var previous, checkpoint: Option<string>;
    assert full == h.full + bytes[..0];
    full, start, previous := NoteBoundary(hash, full, bytes, start, suffixOffset, h.previous, offset, h.full, started);
    full, start, checkpoint := NoteBoundary(hash, full, bytes, start, checkpointOffset, h.checkpoint, offset, h.full, started);
    assert h.full + bytes[..start] + bytes[start..] == h.full + bytes;
    var hashed := h.hashed + |bytes| + if suffixOffset < end then end - Max(suffixOffset, offset) else 0;
    full := full + bytes[start..];
    if suffixOffset < end {
      suffix := suffix + bytes[if suffixOffset < offset then 0 else suffixOffset - offset..];
    }
    AfterAppend(h.full, bytes, suffixOffset);
    h' := Hashing(full, suffix, previous, checkpoint, hashed);
  }

  lemma Seen(hash: seq<byte> -> string, seen: seq<byte>, started: bool, suffixOffset: nat, checkpointOffset: nat, h: Hashing)
    requires HashedUpTo(hash, seen, started, suffixOffset, checkpointOffset, h)
    ensures h.full == seen
  {}

  lemma PassBegins(hash: seq<byte> -> string, pieces: seq<seq<byte>>, suffixOffset: nat, checkpointOffset: nat)
    ensures HashedUpTo(hash, Concat(pieces[..0]), false, suffixOffset, checkpointOffset, Hashing([], [], None, None, 0))
  {
    assert Concat(pieces[..0]) == [];
  }

  lemma NothingBefore(pieces: seq<seq<byte>>)
    ensures Concat(pieces[..0]) == []
  {}

  method Pass(hash: seq<byte> -> string, pieces: seq<seq<byte>>, suffixOffset: nat, checkpointOffset: nat) returns (h: Hashing)
    requires (forall r :: r in pieces ==> r != []) && suffixOffset <= checkpointOffset
    ensures HashedUpTo(hash, Concat(pieces), true, suffixOffset, checkpointOffset, h)
  {
    hide *;
    h := Hashing([], [], None, None, 0);
    var next := 0;
    PassBegins(hash, pieces, suffixOffset, checkpointOffset);
    while true
      invariant 0 <= next <= |pieces|
      invariant HashedUpTo(hash, Concat(pieces[..next]), next > 0, suffixOffset, checkpointOffset, h)
      decreases |pieces| - next
    {
      var bytes := if next < |pieces| then pieces[next] else [];
      assert next < |pieces| ==> bytes in pieces;
      Seen(hash, Concat(pieces[..next]), next > 0, suffixOffset, checkpointOffset, h);
      NothingBefore(pieces);
      h := Absorb(hash, h, bytes, suffixOffset, checkpointOffset, next > 0);
      if |bytes| == 0 {
        assert pieces[..next] == pieces;
        assert Concat(pieces) + bytes == Concat(pieces);
        break;
      }
      ConcatPush(pieces[..next], bytes);
      assert pieces[..next] + [bytes] == pieces[..next + 1];
      next := next + 1;
    }
  }

  lemma PassIsDone(hash: seq<byte> -> string, file: seq<byte>, suffixOffset: nat, checkpointOffset: nat, h: Hashing)
    requires suffixOffset <= checkpointOffset && HashedUpTo(hash, file, true, suffixOffset, checkpointOffset, h)
    ensures h.hashed == |file| + |After(file, suffixOffset)|
    ensures DigestsOf(hash, file, suffixOffset, checkpointOffset) ==
      if h.checkpoint.Some? && h.previous.Some?
      then Some(FileDigests(hash(h.full), hash(h.suffix), h.checkpoint.value, h.previous.value))
      else None
  {}

  /** One pass over the file yields the digests of the whole, of the part after `suffixOffset`, and
      of the parts before each offset, whatever the sizes of the reads. It fails exactly when the
      offsets are out of order or the checkpoint lies past the end. `hashed` counts the bytes
      absorbed by both hashers. */
  method DigestFile(hash: seq<byte> -> string, pieces: seq<seq<byte>>, suffixOffset: nat, checkpointOffset: nat)
    returns (digests: Option<FileDigests>, hashed: nat)
    requires forall r :: r in pieces ==> r != []
    ensures digests == DigestsOf(hash, Concat(pieces), suffixOffset, checkpointOffset)
    ensures suffixOffset <= checkpointOffset ==>
              hashed == |Concat(pieces)| + |After(Concat(pieces), suffixOffset)|
  {
    if suffixOffset > checkpointOffset {
      return None, 0;
    }
    var h := Pass(hash, pieces, suffixOffset, checkpointOffset);
    hide HashedUpTo, Concat, After, DigestsOf;
    PassIsDone(hash, Concat(pieces), suffixOffset, checkpointOffset, h);
    hashed := h.hashed;
    digests := if h.checkpoint.Some? && h.previous.Some?
               then Some(FileDigests(hash(h.full), hash(h.suffix), h.checkpoint.value, h.previous.value))
               else None;
  }
}
