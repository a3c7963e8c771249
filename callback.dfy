/**
 * mergecap's progress callback (merge_callback), which the merge engine calls when -V
 * asks for verbose output. Each event only produces diagnostics on the standard error;
 * the model returns what those diagnostics report instead of their text. For the
 * frame-type event with per-packet encapsulation, the report names the first input
 * whose encapsulation differs from that of the first input.
 *
 * The wiretap handle of an input is represented by the two values the callback asks
 * of it: its file type and its encapsulation.
 */
module Callback {
  import opened Wrappers

  /** WTAP_ENCAP_PER_PACKET: the inputs do not share one encapsulation. */
  const ENCAP_PER_PACKET: int := -1

  /** merge_event. */
  datatype MergeEvent =
    | InputFilesOpened
    | FrameTypeSelected
    | ReadyToMerge
    | RecordWasRead
    | Done

  /** merge_in_file_t as the callback sees it. */
  datatype InFile = InFile(filename: string, fileType: int, encap: int)

  /** What one call of the callback writes to the standard error. */
  datatype Report =
    | FileTypes(files: seq<(string, int)>)          // "<file> is type <type>." per input
    | FrameType(selected: int, mismatch: Option<nat>) // the differing input, if searched and found
    | ReadyReport                                     // "ready to merge records"
    | RecordCount(count: int)                         // "Record: <count>"
    | Complete                                        // "merging complete"

  /**
   * merge_callback. It never asks the merge to stop. For the frame-type event, num is
   * the selected encapsulation; when that is per-packet, the inputs are searched for the
   * smallest index i >= 1 whose encapsulation differs from input 0's, and none is
   * reported exactly when all inputs share input 0's encapsulation. Reading input 0
   * requires at least one input.
   */
  method MergeCallback(event: MergeEvent, num: int, inFiles: array<InFile>)
    returns (stop: bool, report: Report)
    requires event == FrameTypeSelected && num == ENCAP_PER_PACKET ==> inFiles.Length >= 1
    ensures !stop
    ensures event == InputFilesOpened ==>
      report.FileTypes? && |report.files| == inFiles.Length &&
      forall i :: 0 <= i < inFiles.Length ==> report.files[i] == (inFiles[i].filename, inFiles[i].fileType)
    ensures event == FrameTypeSelected ==> report.FrameType? && report.selected == num
    ensures event == FrameTypeSelected && num != ENCAP_PER_PACKET ==> report.mismatch == None
    ensures event == FrameTypeSelected && num == ENCAP_PER_PACKET ==>
      var m := report.mismatch;
      && (m.Some? ==> 1 <= m.value < inFiles.Length && inFiles[m.value].encap != inFiles[0].encap &&
                      forall j :: 1 <= j < m.value ==> inFiles[j].encap == inFiles[0].encap)
      && (m.None? <==> forall j :: 1 <= j < inFiles.Length ==> inFiles[j].encap == inFiles[0].encap)
    ensures event == ReadyToMerge ==> report == ReadyReport
    ensures event == RecordWasRead ==> report == RecordCount(num)
    ensures event == Done ==> report == Complete
  {
    match event {
    case InputFilesOpened =>
      var files: seq<(string, int)> := [];
      var i := 0;
      while i < inFiles.Length
        invariant 0 <= i <= inFiles.Length
        invariant |files| == i
        invariant forall k :: 0 <= k < i ==> files[k] == (inFiles[k].filename, inFiles[k].fileType)
      {
        files := files + [(inFiles[i].filename, inFiles[i].fileType)];
        i := i + 1;
      }
      report := FileTypes(files);
    case FrameTypeSelected =>
      var mismatch: Option<nat> := None;
      if num == ENCAP_PER_PACKET {
        // Find out why per-packet encapsulation had to be chosen.
        var firstFrameType := inFiles[0].encap;
        var i := 1;
        while i < inFiles.Length
          invariant 1 <= i <= inFiles.Length
          invariant forall j :: 1 <= j < i ==> inFiles[j].encap == firstFrameType
        {
          var thisFrameType := inFiles[i].encap;
          if firstFrameType != thisFrameType {
            mismatch := Some(i);
            break;
          }
          i := i + 1;
        }
      }
      report := FrameType(num, mismatch);
    case ReadyToMerge =>
      report := ReadyReport;
    case RecordWasRead =>
      report := RecordCount(num);
    case Done =>
      report := Complete;
    }
    // false = do not stop merging
    stop := false;
  }
}
