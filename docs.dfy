/** The parts of a Google Docs API v1 Document resource that the handler reads.
    Every JSON key is a `Field`: missing, present with `null`, or present with
    a value. Keys the handler never reads are not modelled; a content block of
    another kind (a table, a section break) is a block whose "paragraph" key
    is missing, and so is an inline object for "textRun". */
module Docs {

  datatype Field<+T> = Absent | Null | Present(value: T)

  datatype Document = Document(title: Field<string>, body: Field<Body>)

  datatype Body = Body(content: Field<seq<StructuralElement>>)

  datatype StructuralElement = StructuralElement(paragraph: Field<Paragraph>)

  datatype Paragraph = Paragraph(elements: Field<seq<ParagraphElement>>)

  datatype ParagraphElement = ParagraphElement(textRun: Field<TextRun>)

  datatype TextRun = TextRun(content: Field<string>)
}
