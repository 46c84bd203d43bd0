/** Text checks shared by the queue's argument validation. */
module BoundedText {

  /** The white space that String.prototype.trim removes (section 22.1.3.32 of ECMA-262). */
  predicate IsSpace(c: char) {
    var code := c as int;
    || 9 <= code <= 13 || code == 32 || code == 0xA0 || code == 0x1680
    || 0x2000 <= code <= 0x200A || code == 0x2028 || code == 0x2029
    || code == 0x202F || code == 0x205F || code == 0x3000 || code == 0xFEFF
  }

  /** Non-empty, at most `limit` long, and unchanged by trimming. */
  predicate TrimmedWithin(text: string, limit: nat) {
    1 <= |text| <= limit && !IsSpace(text[0]) && !IsSpace(text[|text| - 1])
  }

  predicate HasControl(text: string) {
    exists i :: 0 <= i < |text| && (text[i] as int <= 31 || text[i] as int == 127)
  }

  /** A bounded upper-case machine code: a letter, then up to 99 letters, digits or underscores. */
  predicate MachineCode(text: string) {
    && 1 <= |text| <= 100
    && 'A' <= text[0] <= 'Z'
    && forall i :: 0 <= i < |text| ==> 'A' <= text[i] <= 'Z' || '0' <= text[i] <= '9' || text[i] == '_'
  }
}
