/**
 * The answer a modal Yes/No question box returns. Every prompt in the
 * browser offers exactly these two buttons; closing the box counts as No.
 */
module Dialog {

  datatype Reply = Yes | No
}
