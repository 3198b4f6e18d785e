// The beat flag of an audio value (`AUDIO_BEAT_FLAG`), as the bit it is.
module BeatFlag {
  import opened Words
  import opened WordBits
  import opened Packer
  import opened AudioEvents

  /** Of a 32-bit word the flag is bit 31, and without it the other bits are left. */
  lemma FlagIsTopBit(w: word)
    ensures HasBeat(w) <==> BitsOf(w)[31]
    ensures MaskBeat(w) == AndWords(w, 0x7fff_ffff)
  {
    PowerOfWord();
    assert Power(32) == 2 * Power(31);
    if HasBeat(w) {
      LeadingBit(w, 31);
    } else {
      HighBitClear(w, 31, 31);
    }
    MaskIsRemainder(w, 31, 0x8000_0000, 0x7fff_ffff);
  }
}
