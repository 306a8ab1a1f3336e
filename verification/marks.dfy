/**
  The status marks stored in the inventory maps and shown in the table cells.
  They are kept as the same strings the program compares against.
 */
module Marks {
  /** "×" (U+00D7): sold out. */
  const SOLD_OUT: string := "\U{00D7}"
  /** "⚪︎" (U+26AA followed by the text variation selector U+FE0E): one ticket left. */
  const LAST_ONE: string := "\U{26AA}\U{FE0E}"
  /** "◎" (U+25CE): in stock. */
  const PLENTY: string := "\U{25CE}"
  /** "○" (U+25CB): the single available mark the table displays. */
  const AVAILABLE: string := "\U{25CB}"
  /** "🔒" (U+1F512): a slot that is not released yet. */
  const LOCKED: string := "\U{1F512}"
}
