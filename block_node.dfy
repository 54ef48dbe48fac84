/** The block-level kinds of the converter. No operation of the inline core uses them. */
module BlockNodes {

  datatype BlockType = Paragraph | Heading | Code | Quote | UnorderedList | OrderedList
}
