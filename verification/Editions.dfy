/** The two readings of the program that the model keeps apart.

    `AsWritten` follows the C text branch by branch. `Repaired` differs from it only in the
    places listed here, each of which the code's own comments, widths or sibling functions
    contradict:
    - the packet terminator searched for is CR LF, not the four characters `/r/n`;
    - a length field that is not a number rejects the packet;
    - field widths do not count the terminating NUL of the width literal;
    - an MN value is compared over its own length, not up to the end of the message;
    - the length tests on flag, pnum and pno reject empty values, not non-empty ones;
    - the parsed arguments start out zeroed instead of indeterminate;
    - 9012 and clock replies are sealed in the order 9011 uses;
    - the hour and day accumulators record their own meter total;
    - the hour and day markers start where the other two start, not at indeterminate values;
    - no term of the flow meter's total is cut to 32 bits;
    - the letter `A` is a hexadecimal digit. */
module Editions {
  datatype Edition = AsWritten | Repaired
}
