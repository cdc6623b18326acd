/** The parts of a jgettext Message the plugin reads. A null reference is
    None: a message without msgctxt or msgid_plural, or without a
    msgstr[] list. */
module GettextMessage {
  import opened Wrappers

  datatype Message = Message(
    msgctxt: Option<string>,
    msgid: string,
    msgidPlural: Option<string>,
    msgstr: string,
    msgstrPlural: Option<seq<string>>,
    sourceReferences: seq<string>,
    fuzzy: bool)
}
