/** A DNS message as dns-packet decodes it, reduced to what the relay
    reads and writes. Wire encoding and decoding are not part of this
    model: a message enters already decoded. */
module Dns {

  import opened Wrappers

  /** The record types the relay tells apart; every other type is kept
      under its mnemonic and never inspected. */
  datatype RecordType = A | CNAME | OtherType(mnemonic: string)

  datatype RecordClass = IN | OtherClass(mnemonic: string)

  datatype Question = Question(name: string, qtype: RecordType, qclass: RecordClass)

  /** An answer record. `data` is what dns-packet puts there: the dotted
      address of an A record, the target name of a CNAME; the data of any
      other type is carried along untouched. */
  datatype ResourceRecord = ResourceRecord(
    name: string,
    rtype: RecordType,
    rclass: RecordClass,
    ttl: nat,
    data: string)

  /** `questions` and `answers` are optional because the relay checks
      both against null before it reads them. */
  datatype Message = Message(
    id: nat,
    flags: nat,
    questions: Option<seq<Question>>,
    answers: Option<seq<ResourceRecord>>,
    authorities: seq<ResourceRecord>,
    additionals: seq<ResourceRecord>)
}
