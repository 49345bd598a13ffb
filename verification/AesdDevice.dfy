/** The device and its open files as main.c updates them: write, read and the seek ioctl, each as
    one atomic step. */
module AesdDevice {
  import opened CommandWindow
  import opened Options
  import opened DeviceSpec
  import CB = CircularBuffer

  const EFAULT: int := 14
  const ENOMEM: int := 12

  /** What can go wrong in a write: no memory for the copy of the data, no access to the data, no
      memory for the pending bytes. */
  datatype WriteFault = NoFault | NoBuffer | NoAccess | NoStore

  /** struct file: the position that reads and seeks move. */
  class OpenFile {
    var fPos: nat

    constructor ()
      ensures fPos == 0
    {
      fPos := 0;
    }
  }

  class AesdDevice {
    const ring: CB.CircularBuffer
    var storeBuffer: seq<char>
    var bufferLength: nat

    ghost predicate Valid()
      reads this, ring, ring.entry
    {
      && ring.Valid()
      && bufferLength <= |storeBuffer|
    }

    /** Every command completed so far, and the pending bytes. */
    ghost function State(): Device
      reads this, ring, ring.entry
      requires Valid()
    {
      Device(ring.history, storeBuffer[..bufferLength])
    }

    constructor (n: nat)
      requires n >= 1
      ensures Valid() && fresh(ring) && fresh(ring.entry)
      ensures ring.N() == n && State() == Device([], [])
    {
      ring := new CB.CircularBuffer(n);
      storeBuffer, bufferLength := [], 0;
    }

    /** The scanning loop of aesd_write: one past the last newline, and whether there is one. */
    static method ScanForNewline(buffer: seq<char>) returns (bufferNewLine: nat, temp: bool)
      ensures bufferNewLine == NewlineEnd(buffer)
      ensures temp <==> bufferNewLine > 0
    {
      bufferNewLine := 0;
      temp := false;
      var i := 0;
      while i < |buffer|
        invariant i <= |buffer|
        invariant bufferNewLine == NewlineEnd(buffer[..i])
        invariant temp <==> bufferNewLine > 0
      {
        assert buffer[..i + 1][..i] == buffer[..i];
        if buffer[i] == NEWLINE {
          bufferNewLine := i + 1;
          temp := true;
        }
        i := i + 1;
      }
      assert buffer[..i] == buffer;
    }

    /** aesd_write. A failing write changes nothing and reports its error, with one exception: when
        the memory for pending bytes cannot be enlarged, their buffer is lost (NULL holds no byte)
        while their number stays, and that is the only way in which the device gets damaged. */
    method Write(buffer: seq<char>, fault: WriteFault) returns (retval: int)
      requires Valid()
      modifies this, ring, ring.entry
      ensures retval == match fault
                        case NoFault => |buffer|
                        case NoBuffer => -12
                        case NoAccess => -14
                        case NoStore => -12
      ensures ring.Valid()
      ensures Valid() <==> !(fault.NoStore? && old(bufferLength) > 0)
      ensures Valid() ==>
                State() == if fault.NoFault? then DeviceSpec.Write(old(State()), buffer) else old(State())
      ensures !Valid() ==>
                && storeBuffer == []
                && bufferLength == old(bufferLength)
                && ring.history == old(ring.history)
      ensures ring.Window() == CB.LastOf(ring.history, ring.N())
    {
      hide CB.AddAll, CB.NextSlot, CB.Ring.Add, CB.Ring.Window, CB.LastOf, NewlineEnd;
      CB.RingIsSlidingWindow(ring.N(), ring.history);
      if fault.NoBuffer? {
        return 0 - ENOMEM;
      }
      if fault.NoAccess? {
        return 0 - EFAULT;
      }
      var bufferNewLine, temp := ScanForNewline(buffer);
      ghost var pending := storeBuffer[..bufferLength];
      if fault.NoStore? {
        storeBuffer := [];
        return 0 - ENOMEM;
      }
      if bufferLength == 0 {
        storeBuffer := buffer;
        bufferLength := bufferLength + |buffer|;
      } else {
        var size := if temp then bufferNewLine else |buffer|;
        storeBuffer := storeBuffer[..bufferLength] + buffer[..size];
        bufferLength := bufferLength + size;
      }
      assert storeBuffer[..bufferLength] == pending + Stored(pending, buffer);
      if temp {
        ring.AddEntry(storeBuffer[..bufferLength]);
        bufferLength := 0;
      }
      CB.RingIsSlidingWindow(ring.N(), ring.history);
      retval := |buffer|;
    }

    /** aesd_read into a buffer that takes at most `writable` bytes. Where it would take more, the
        read fails and the position stays. Pending bytes play no part, nor does their loss. */
    method Read(file: OpenFile, count: nat, writable: nat) returns (retval: int, bytes: seq<char>)
      requires ring.Valid()
      modifies file
      ensures ring.Valid() && ring.history == old(ring.history) && ring.Window() == old(ring.Window())
      ensures var read := DeviceSpec.Read(old(ring.Window()), old(file.fPos), count);
              if |read| <= writable then
                && bytes == read
                && retval == |read|
                && file.fPos == old(file.fPos) + |read|
              else
                && bytes == []
                && retval == -14
                && file.fPos == old(file.fPos)
    {
      hide CB.AddAll, Flat, Locate, CB.Ring.Window;
      LookupIsRight(ring.Window(), file.fPos);
      retval, bytes := 0, [];
      var found := ring.FindEntryOffset(file.fPos);
      match found {
        case None =>
        case Some((slot, offset)) =>
          var readBytes := |ring.entry[slot]| - offset;
          if count < readBytes {
            readBytes := count;
          }
          if readBytes > writable {
            return 0 - EFAULT, [];
          }
          bytes := ring.entry[slot][offset..offset + readBytes];
          file.fPos := file.fPos + readBytes;
          retval := readBytes;
      }
    }

    /** The AESDCHAR_IOCSEEKTO branch of aesd_unlocked_ioctl; `access` tells whether the arguments
        can be copied from the user. */
    method SeekTo(file: OpenFile, writeCmd: nat, writeCmdOffset: nat, access: bool) returns (retval: int)
      requires ring.Valid()
      modifies file
      ensures ring.Valid() && ring.history == old(ring.history) && ring.Window() == old(ring.Window())
      ensures retval == if access then 0 else -14
      ensures file.fPos == if access then Position(old(ring.Window()), writeCmd, writeCmdOffset) else old(file.fPos)
    {
      retval := 0;
      if !access {
        retval := 0 - EFAULT;
      } else {
        file.fPos := ring.FindPosition(writeCmd, writeCmdOffset);
      }
    }
  }

  /** The failure that damages a device: "a" is pending, and there is no memory for one byte more. */
  method PendingCanBeLost() returns (device: AesdDevice, retval: int)
    ensures retval == -12 && !device.Valid()
    ensures device.storeBuffer == [] && device.bufferLength == 1
  {
    device := new AesdDevice(10);
    assert NewlineEnd("a") == 0 by {
      assert "a"[..0] == "";
    }
    hide NewlineEnd, CB.LastOf, CB.AddAll;
    var written := device.Write("a", NoFault);
    assert device.State().pending == "a" && |device.State().pending| == device.bufferLength;
    retval := device.Write("b", NoStore);
  }
}
