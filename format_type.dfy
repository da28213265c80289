/** The two wire layouts; chosen once per serializer or deserializer. */
module FormatType {
  datatype Format = Binary | Text
}
