/**
 * Whole-object scenarios: sequences of calls on one CheckedFile, with what
 * they must end in.
 */
module Scenarios {
  import opened Words
  import opened Paging
  import opened Results
  import opened Checksums
  import opened Backends
  import opened ReadSpec
  import opened WriteSpec
  import opened CheckedFiles

  /**
   * Reading back what the page loop wrote from the start of an empty store:
   * the whole of `read`, bounds check and final seek included, returns the
   * data.
   */
  lemma ReadOutcomeAfterWrite(crc: Crc32c, policy: ChecksumPolicy, data: seq<byte>)
    requires 0 < |data| <= 1000 * LogicalPageSize
    ensures WritePages(crc, PageLoop([], Zeros(PhysicalPageSize), 0, 0, data)).outcome == Pass
    ensures ReadOutcome(Descriptor, WritePages(crc, PageLoop([], Zeros(PhysicalPageSize), 0, 0, data)).store,
                        0, |data|, crc, policy, |data|) == Ok(data)
  {
    var s := PageLoop([], Zeros(PhysicalPageSize), 0, 0, data);
    WritePagesPass(crc, s);
    WriteThenReadPages(crc, s, Descriptor, policy);
    LogicalToPhysicalBound(|data|);
  }

  /**
   * A file created empty and written with `data` holds the pages the page
   * loop writes, knows `data`'s length as its logical length, and has its
   * cursor just past the data.
   */
  method CreateAndWrite(crc: Crc32c, policy: ChecksumPolicy, data: seq<byte>) returns (file: CheckedFile, written: Outcome)
    requires 0 < |data| <= 1000 * LogicalPageSize
    ensures fresh(file) && file.Valid() && file.Kind() == Descriptor && !file.readOnly
    ensures file.crc == crc && file.policy == policy
    ensures written == Pass && file.logicalLength == |data|
    ensures file.disk == WritePages(crc, PageLoop([], Zeros(PhysicalPageSize), 0, 0, data)).store
  {
    file := new CheckedFile.OpenWrite(3, crc, policy);
    assert PhysicalToLogical(0) == 0;
    ReadOutcomeAfterWrite(crc, policy, data);
    LogicalToPhysicalBound(|data|);
    written := file.Write(data);
  }

  /**
   * Rewinding an open descriptor file to logical offset 0 and reading `n`
   * bytes from there: the seek succeeds, and the read ends as `read` from
   * the start of the file does.
   */
  method RewindAndRead(file: CheckedFile, n: nat) returns (rewound: Outcome, read: Outcome, got: seq<byte>)
    requires file.Valid() && file.Kind() == Descriptor && n <= MaxInt64
    modifies file`osCursor, file.bufView
    ensures rewound == Pass
    ensures var r := ReadOutcome(Descriptor, file.disk, 0, file.logicalLength, file.crc, file.policy, n);
      (read.Pass? <==> r.Ok?) && (r.Ok? ==> got == r.value)
  {
    assert LogicalSeekTarget(0) == 0;
    rewound := file.Seek(0, Logical);
    var buf := new byte[n];
    read := file.Read(buf, n);
    got := buf[..];
  }

  /**
   * A file created empty, written with `data`, rewound and read back from
   * its start returns exactly `data` under every checksum policy: every page
   * `write` seals passes `verifyChecksum`.
   */
  method WriteThenReadBack(crc: Crc32c, policy: ChecksumPolicy, data: seq<byte>)
    returns (written: Outcome, rewound: Outcome, read: Outcome, got: seq<byte>)
    requires 0 < |data| <= 1000 * LogicalPageSize
    ensures written == Pass && rewound == Pass && read == Pass
    ensures got == data
  {
    var file;
    file, written := CreateAndWrite(crc, policy, data);
    ReadOutcomeAfterWrite(crc, policy, data);
    rewound, read, got := RewindAndRead(file, |data|);
  }
}
