/**
 * The download handler (`MainWindow.handle_download`): the user picks a
 * save path; an empty path cancels the download before it is accepted, any
 * other path is set on the download (its file name is the path's last
 * component) and the download is accepted. Progress reports update the
 * progress dialog only when the total size is known (positive).
 */
module Downloads {
  import opened Wrappers

  /** What happens to the download request. */
  datatype Action = Cancel | Accept(fileName: string, path: string)

  /** `os.path.basename` on a POSIX path: the text after the last "/". */
  function Basename(path: string): (name: string)
    ensures |name| <= |path| && path[|path| - |name|..] == name
    ensures '/' !in name
    ensures |name| < |path| ==> path[|path| - |name| - 1] == '/'
  {
    if path == [] || path[|path| - 1] == '/' then []
    else
      var name := Basename(path[..|path| - 1]) + [path[|path| - 1]];
      assert path[..|path| - 1][|path| - |name|..] + [path[|path| - 1]] == path[|path| - |name|..];
      name
  }

  /** `handle_download` for the path the save dialog returned. */
  function HandleDownload(savePath: string): (a: Action)
    ensures a == Cancel <==> savePath == ""
    ensures a.Accept? ==> a.path == savePath && a.fileName == Basename(savePath)
    ensures a.Accept? ==> '/' !in a.fileName && |a.fileName| <= |savePath|
    ensures a.Accept? ==> savePath[|savePath| - |a.fileName|..] == a.fileName
  {
    if savePath == "" then Cancel
    else Accept(Basename(savePath), savePath)
  }

  /** What the progress dialog shows: a percentage and the two sizes in KB. */
  datatype ProgressView = ProgressView(percent: int, receivedKb: int, totalKb: int)

  /** `update_progress(received, total)`; None when the dialog is left as it
      was. The percentage is taken with integer division (see README). */
  function UpdateProgress(received: nat, total: int): (v: Option<ProgressView>)
    ensures v.None? <==> total <= 0
    ensures v.Some? ==> v.value.percent * total <= received * 100 < (v.value.percent + 1) * total
    ensures v.Some? ==> v.value.receivedKb * 1024 <= received < (v.value.receivedKb + 1) * 1024
    ensures v.Some? ==> v.value.totalKb * 1024 <= total < (v.value.totalKb + 1) * 1024
    ensures v.Some? && received <= total ==> 0 <= v.value.percent <= 100
  {
    if total > 0 then
      var percent := received * 100 / total;
      DivisionBounds(received * 100, total);
      DivisionBounds(received, 1024);
      DivisionBounds(total, 1024);
      assert received <= total ==> percent <= 100 by {
        if received <= total && percent > 100 {
          MultiplyMonotone(101, percent, total);
          assert false;
        }
      }
      Some(ProgressView(percent, received / 1024, total / 1024))
    else None
  }

  /** The quotient of a non-negative number, bounded by multiples of the divisor. */
  lemma DivisionBounds(a: nat, b: int)
    requires b > 0
    ensures 0 <= a / b && (a / b) * b <= a < (a / b + 1) * b
  {
    assert a == (a / b) * b + a % b;
  }

  lemma MultiplyMonotone(x: int, y: int, m: int)
    requires x <= y && m > 0
    ensures x * m <= y * m
  {
    assert y * m - x * m == (y - x) * m;
  }

  /** More bytes received never show a smaller percentage. */
  lemma ProgressMonotone(r1: nat, r2: nat, total: int)
    requires r1 <= r2 && total > 0
    ensures UpdateProgress(r1, total).value.percent <= UpdateProgress(r2, total).value.percent
  {
    var p1, p2 := UpdateProgress(r1, total).value.percent, UpdateProgress(r2, total).value.percent;
    if p1 > p2 {
      MultiplyMonotone(p2 + 1, p1, total);
      assert false;
    }
  }
}
