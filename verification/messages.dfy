/** A chat message as the app passes it around: a dict with a "role" and a
    "content" key. Both the pipeline's reply and the chat stream use it. */
module Messages {

  /** `{"role": role, "content": content}`. */
  datatype Message = Message(role: string, content: string)
}
