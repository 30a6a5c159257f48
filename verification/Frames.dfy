/** itr_frame_real_mode (interrupt.h): the registers of an interrupted real-mode program, as a
    handler sees them. */
module Frames {
  import opened Types

  /** Sixteen bits as byte lanes, like Dword. */
  datatype Word = Word(lo: u8, hi: u8) {
    function Value(): u16 {
      lo as int + 0x100 * hi as int
    }
  }

  /** The fields in the order of their layout, and the names that overlap them. */
  datatype Frame = Frame(
    fs: Word, es: Word, ds: Word,
    edi: Dword, esi: Dword, edx: Dword, ecx: Dword, ebx: Dword, eax: Dword,
    esp: Dword, ebp: Dword,
    ss: Word, gs: Word, ip: Word, cs: Word, flags: Word)
  {
    function Al(): u8 { eax.b0 }

    function Ah(): u8 { eax.b1 }

    function Bx(): u16 { Word(ebx.b0, ebx.b1).Value() }

    function Cl(): u8 { ecx.b0 }

    function Ch(): u8 { ecx.b1 }

    function Dl(): u8 { edx.b0 }

    function Dh(): u8 { edx.b1 }

    function WithAx(al: u8, ah: u8): Frame {
      this.(eax := eax.(b0 := al, b1 := ah))
    }

    function WithCx(cl: u8, ch: u8): Frame {
      this.(ecx := ecx.(b0 := cl, b1 := ch))
    }

    function WithDx(dl: u8, dh: u8): Frame {
      this.(edx := edx.(b0 := dl, b1 := dh))
    }

    /** The carry flag is bit 0 of FLAGS. */
    function WithCarry(carry: bool): Frame {
      this.(flags := flags.(lo := flags.lo / 2 * 2 + if carry then 1 else 0))
    }
  }
}
