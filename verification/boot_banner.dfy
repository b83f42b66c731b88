/** The 64-bit boot stub's greeting: the message written straight into VGA text memory. */
module BootBanner {
  import opened Common
  import StringLib

  const MESSAGE: seq<CChar> := "Hello from " + "64-bit " + "Python OS " + "with " + "Multiboot2!" + [NUL]
  /** Light grey on black. */
  const ATTRIBUTE: Byte := 0x07

  /**
   * `kernel_main`'s loop: character `i` of the C string goes to byte `2i` of video
   * memory and the attribute to byte `2i + 1`; the terminator and everything after the
   * `2 * strlen` bytes are not touched.
   */
  method WriteMessage(video: seq<Byte>, msg: seq<CChar>) returns (v: seq<Byte>)
    requires StringLib.Terminated(msg) && 2 * |StringLib.Text(msg)| <= |video|
    ensures |v| == |video|
    ensures forall i :: 0 <= i < |StringLib.Text(msg)| ==>
      v[2 * i] == msg[i] as Byte && v[2 * i + 1] == ATTRIBUTE
    ensures v[2 * |StringLib.Text(msg)|..] == video[2 * |StringLib.Text(msg)|..]
  {
    var n := |StringLib.Text(msg)|;
    v := video;
    var i := 0;
    while msg[i] != NUL
      invariant 0 <= i <= n && |v| == |video|
      invariant forall k :: 0 <= k < i ==> v[2 * k] == msg[k] as Byte && v[2 * k + 1] == ATTRIBUTE
      invariant v[2 * i..] == video[2 * i..]
      decreases n - i
    {
      assert msg[i] == StringLib.Text(msg)[i];
      ghost var before := v;
      v := v[2 * i := msg[i] as Byte][2 * i + 1 := ATTRIBUTE];
      assert v[2 * i + 2..] == before[2 * i + 2..] == before[2 * i..][2..];
      assert video[2 * i + 2..] == video[2 * i..][2..];
      i := i + 1;
    }
  }

  /** The message has 44 characters, so the loop fills the first 88 bytes of the screen. */
  lemma MessageLength()
    ensures StringLib.Terminated(MESSAGE) && |StringLib.Text(MESSAGE)| == 44
  {
    assert MESSAGE[44] == NUL;
    assert MESSAGE[..44] == "Hello from " + "64-bit " + "Python OS " + "with " + "Multiboot2!";
    StringLib.UptoFull(MESSAGE, 44);
  }
}
