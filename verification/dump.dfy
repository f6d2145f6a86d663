/** `binaryDumpAsASCII` (ByteRead_debug.cpp): the whole file, LINESIZE bytes
    per printed line.

    The loop reads one byte at a time until a read fails at end of file. The
    read after the loop (line 128) then fails as well, so the last
    `printLine(buffer, linePos)` always runs: a file whose length is a
    multiple of 16, the empty file included, ends with a line of padding
    only. */
module Dump {
  import opened Bytes
  import opened Render

  /** The chunks in order, concatenated. */
  function Flatten(cs: seq<seq<uint8>>): seq<uint8>
  {
    if |cs| == 0 then [] else cs[0] + Flatten(cs[1..])
  }

  /** The file cut as the dump cuts it: full LINESIZE-byte chunks, then one
      final chunk of the `|file| % 16` bytes left over, present even when it
      is empty. */
  function Chunks(file: seq<uint8>): (cs: seq<seq<uint8>>)
    ensures |cs| == |file| / LINESIZE + 1
    ensures forall k :: 0 <= k < |cs| - 1 ==> |cs[k]| == LINESIZE
    ensures |cs[|cs| - 1]| == |file| % LINESIZE
    ensures Flatten(cs) == file
    decreases |file|
  {
    if |file| < LINESIZE then
      assert Flatten([file][1..]) == [];
      [file]
    else
      var rest := Chunks(file[LINESIZE..]);
      var cs := [file[..LINESIZE]] + rest;
      assert cs[1..] == rest;
      assert file == file[..LINESIZE] + file[LINESIZE..];
      cs
  }

  /** Each chunk printed as one line. */
  function Lines(cs: seq<seq<uint8>>): string
  {
    if |cs| == 0 then "" else PrintLine(cs[0], |cs[0]|) + Lines(cs[1..])
  }

  /** The text the dump writes for `file`: a full line for each leading
      LINESIZE bytes, then the line of what is left, even when that is
      nothing. */
  function DumpText(file: seq<uint8>): string
    decreases |file|
  {
    if |file| < LINESIZE then PrintLine(file, |file|)
    else PrintLine(file[..LINESIZE], LINESIZE) + DumpText(file[LINESIZE..])
  }

  /** The dump text is the chunks of the file, each printed as one line. */
  lemma {:induction false} DumpTextChunks(file: seq<uint8>)
    ensures DumpText(file) == Lines(Chunks(file))
    decreases |file|
  {
    var cs := Chunks(file);
    if |file| >= LINESIZE {
      assert cs[0] == file[..LINESIZE];
      assert cs[1..] == Chunks(file[LINESIZE..]);
      DumpTextChunks(file[LINESIZE..]);
    } else {
      assert cs == [file];
      assert cs[1..] == [];
      assert Lines(cs) == PrintLine(file, |file|) + "";
    }
  }

  /** A full line consumed by the loop: the buffer holds the 16 bytes at
      `start`. */
  lemma FullLine(file: seq<uint8>, start: nat, buffer: seq<uint8>, out: string)
    requires start + LINESIZE <= |file|
    requires buffer == file[start..start + LINESIZE]
    requires out + DumpText(file[start..]) == DumpText(file)
    ensures (out + PrintLine(buffer, LINESIZE)) + DumpText(file[start + LINESIZE..]) == DumpText(file)
  {
    FirstLine(file, start, buffer);
    Regroup(out, DumpText(file), DumpText(file[start..]),
            PrintLine(buffer, LINESIZE), DumpText(file[start + LINESIZE..]));
  }

  lemma FirstLine(file: seq<uint8>, start: nat, buffer: seq<uint8>)
    requires start + LINESIZE <= |file|
    requires buffer == file[start..start + LINESIZE]
    ensures DumpText(file[start..]) == PrintLine(buffer, LINESIZE) + DumpText(file[start + LINESIZE..])
  {
    var rest := file[start..];
    assert rest[..LINESIZE] == buffer;
    assert rest[LINESIZE..] == file[start + LINESIZE..];
  }

  lemma Regroup<T>(out: seq<T>, whole: seq<T>, rest: seq<T>, line: seq<T>, after: seq<T>)
    requires out + rest == whole && rest == line + after
    ensures (out + line) + after == whole
  {
  }

  /** The final line: the buffer starts with the `n` bytes left at `start`;
      whatever follows them in the buffer is not printed. */
  lemma LastLine(file: seq<uint8>, start: nat, buffer: seq<uint8>, n: nat, out: string)
    requires start + n == |file| && n < LINESIZE && n <= |buffer|
    requires buffer[..n] == file[start..]
    requires out + DumpText(file[start..]) == DumpText(file)
    ensures out + PrintLine(buffer, n) == DumpText(file)
  {
    assert file[start..][..n] == file[start..];
  }

  /** binaryDumpAsASCII(fin), lines 113-131. `stale` is what the
      uninitialised line buffer holds at the start; the text does not depend
      on it. */
  method BinaryDumpAsAscii(file: seq<uint8>, stale: seq<uint8>) returns (out: string)
    requires |stale| == LINESIZE
    ensures out == DumpText(file)
  {
    var linePos: int := 0;
    var buffer: seq<uint8> := stale;
    var pos: int := 0;  // fseek(fin, 0, SEEK_SET)
    ghost var start: int := 0;  // where the line being filled begins
    ghost var lines: nat := 0;  // full lines printed so far
    out := "";
    while ReadAt(file, pos).Some?
      invariant 0 <= start <= pos <= |file|
      invariant pos == start + linePos
      invariant start == LINESIZE * lines  // so linePos == pos % LINESIZE
      invariant |buffer| == LINESIZE
      invariant 0 <= linePos < LINESIZE
      invariant buffer[..linePos] == file[start..pos]
      invariant out + DumpText(file[start..]) == DumpText(file)
      decreases |file| - pos
    {
      buffer := buffer[linePos := ReadAt(file, pos).value];
      pos := pos + 1;
      BufferGrows(buffer, linePos, file, start, pos);
      if linePos == LINESIZE - 1 {
        FullLine(file, start, buffer, out);
        out := out + PrintLine(buffer, LINESIZE);
        linePos := 0;
        start := pos;
        lines := lines + 1;
      } else {
        linePos := linePos + 1;
      }
    }
    // The loop stopped at end of file, so this read fails too.
    if ReadAt(file, pos).None? {
      LastLine(file, start, buffer, linePos, out);
      out := out + PrintLine(buffer, linePos);
    }
  }

  lemma BufferGrows(buffer: seq<uint8>, n: nat, file: seq<uint8>, start: nat, pos: nat)
    requires n < |buffer| && start + n + 1 == pos <= |file|
    requires buffer[..n] == file[start..pos - 1] && buffer[n] == file[pos - 1]
    ensures buffer[..n + 1] == file[start..pos]
  {
    assert buffer[..n + 1] == buffer[..n] + [buffer[n]];
    assert file[start..pos] == file[start..pos - 1] + [file[pos - 1]];
  }

  /** A dump has one line per full chunk plus the final line: `|file| / 16 + 1`
      newlines. */
  lemma {:induction false} DumpLineCount(file: seq<uint8>)
    ensures multiset(DumpText(file))['\n'] == |file| / LINESIZE + 1
    decreases |file|
  {
    if |file| >= LINESIZE {
      DumpLineCount(file[LINESIZE..]);
      PrintLineNewlines(file[..LINESIZE], LINESIZE);
    } else {
      PrintLineNewlines(file, |file|);
    }
  }

  /** The dump is `66` characters per full chunk plus `50 + |file| % 16` for
      the final line. */
  lemma {:induction false} DumpLength(file: seq<uint8>)
    ensures |DumpText(file)| == 66 * (|file| / LINESIZE) + 50 + |file| % LINESIZE
    decreases |file|
  {
    if |file| >= LINESIZE {
      var rest := file[LINESIZE..];
      DumpLength(rest);
      assert |PrintLine(file[..LINESIZE], LINESIZE)| == 66;
      assert |rest| / LINESIZE == |file| / LINESIZE - 1 && |rest| % LINESIZE == |file| % LINESIZE;
    } else {
      assert |file| / LINESIZE == 0 && |file| % LINESIZE == |file|;
    }
  }

  /** An empty file dumps as one line of padding: 48 spaces, a tab and a
      newline. */
  lemma EmptyFileDump()
    ensures DumpText([]) == Padding(LINESIZE) + "\t\n"
  {
    assert HexColumn([]) == [] && AsciiColumn([]) == [];
  }

  /** A file of exactly one line's worth of bytes dumps as that full line
      followed by a line of padding only. */
  lemma SixteenByteDump(file: seq<uint8>)
    requires |file| == LINESIZE
    ensures DumpText(file) == PrintLine(file, LINESIZE) + Padding(LINESIZE) + "\t\n"
  {
    assert file[..LINESIZE] == file;
    assert DumpText(file[LINESIZE..]) == Padding(LINESIZE) + "\t\n" by {
      assert file[LINESIZE..] == [];
      EmptyFileDump();
    }
  }

  /** Each line of the dump (the chunks printed one per line, by
      `DumpTextChunks`) reads back as its chunk; the chunks joined are the
      file (`Chunks`). */
  lemma ParseDumpLines(file: seq<uint8>)
    ensures forall k :: 0 <= k < |Chunks(file)| ==>
              ParseLine(PrintLine(Chunks(file)[k], |Chunks(file)[k]|)) == Some(Chunks(file)[k])
  {
    var cs := Chunks(file);
    forall k | 0 <= k < |cs|
      ensures ParseLine(PrintLine(cs[k], |cs[k]|)) == Some(cs[k])
    {
      ParsePrintedLine(cs[k], |cs[k]|);
      assert cs[k][..|cs[k]|] == cs[k];
    }
  }
}
