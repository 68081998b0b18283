/**
 * Two uses of eff::directory::operator= (include/gdir.hpp:93-100) that the
 * code as written gets wrong, each next to the same use of the evidently
 * intended assignment.
 */
module DirectoryFindings {
  import opened Wrappers
  import opened ZipKernel
  import opened Directories

  /**
   * `d = d` on the only handle of an archive: as written, unref drops the
   * count to zero and deletes it before `++*dir.krefs` reads it, so d is
   * left holding a deleted count.
   */
  method SelfAssignAsWritten(zf: ZipArchive, names: seq<Option<string>>) returns (d: Directory)
    requires zf.open && zf.owner == null && AllPresent(names)
    modifies zf
    ensures d.IsOpen() && !d.krefs.live && d.krefs.count == 1
  {
    d := OpenZip(zf, names);
    d.Assign(d);
  }

  /** The same `d = d` with the intended assignment leaves d valid, still the only handle. */
  method SelfAssignFixed(zf: ZipArchive, names: seq<Option<string>>) returns (d: Directory)
    requires zf.open && zf.owner == null && AllPresent(names)
    modifies zf
    ensures d.IsOpen() && d.Valid() && d.krefs.count == 1 && d.krefs.holders == multiset{d}
  {
    d := OpenZip(zf, names);
    d.AssignFixed(d);
  }

  /**
   * Assigning to a handle that is not open: as written, its count is never
   * released, so it stays allocated at 1 for a handle that has moved on to
   * e's count.
   */
  method AssignToClosedAsWritten(e: Directory) returns (d: Directory, lost: Counter)
    requires e.Valid()
    modifies e.krefs
    ensures d.krefs == e.krefs && d.krefs != lost
    ensures lost.live && lost.count == 1 && lost.holders == multiset{d}
  {
    d := Ctor(null);
    lost := d.krefs;
    d.Assign(e);
  }

  /** With the intended assignment the closed handle's count is released and deleted. */
  method AssignToClosedFixed(e: Directory) returns (d: Directory, lost: Counter)
    requires e.Valid()
    modifies e.krefs
    ensures d.Valid() && d.krefs == e.krefs && d.krefs != lost
    ensures !lost.live && lost.count == 0 && lost.holders == multiset{}
  {
    d := Ctor(null);
    lost := d.krefs;
    d.AssignFixed(e);
  }
}
